/** Route keys are injective, and what that gives the two lookup tables. */
module Keys {
  import opened Prelude
  import opened Strings
  import opened Types
  import opened HostMatch
  import opened Compiler
  import opened CompilerProofs
  import opened RouteTable
  import opened TcpTable

  // ----- HTTP -----------------------------------------------------------------

  function NormHost(host: string): string { if host == "" then "*" else host }

  function NormPath(path: string): string { if path == "" then "/" else path }

  /** The shape of a well-formed HTTP route: the path starts where the host ends. */
  predicate Shaped(host: string, path: string) { '/' !in host && (path == "" || path[0] == '/') }

  /** With the path starting where the host ends, the key determines both, up to the
      defaults `*` and `/`. */
  lemma HttpKeyExactly(host: string, path: string, host': string, path': string)
    requires Shaped(host, path) && Shaped(host', path')
    ensures HttpRouteKey(host, path) == HttpRouteKey(host', path')
            <==> NormHost(host) == NormHost(host') && NormPath(path) == NormPath(path')
  {
    if HttpRouteKey(host, path) == HttpRouteKey(host', path') {
      CutUnique(NormHost(host), NormPath(path), NormHost(host'), NormPath(path'), '/');
    }
  }

  /** The key of the second pair is that of the first with the boundary moved left by `w`. */
  predicate Moved(host: string, path: string, host': string, path': string, w: string) {
    NormHost(host) == NormHost(host') + w && NormPath(path') == w + NormPath(path)
  }

  /** For all hosts and paths: keys are equal exactly if one pair is the other with the
      boundary between host and path moved. */
  lemma HttpKeyExactlyAll(host: string, path: string, host': string, path': string)
    ensures HttpRouteKey(host, path) == HttpRouteKey(host', path')
            <==> exists w :: Moved(host, path, host', path', w) || Moved(host', path', host, path, w)
  {
    var a, x, b, y := NormHost(host), NormPath(path), NormHost(host'), NormPath(path');
    assert HttpRouteKey(host, path) == a + x && HttpRouteKey(host', path') == b + y;
    hide NormHost, NormPath, HttpRouteKey;
    if a + x == b + y {
      if |a| >= |b| {
        BoundaryMoved(a, x, b, y);
        assert Moved(host, path, host', path', a[|b|..]);
      } else {
        BoundaryMoved(b, y, a, x);
        assert Moved(host', path', host, path, b[|a|..]);
      }
    }
    forall w | Moved(host, path, host', path', w)
      ensures a + x == b + y
    {
      assert b + w + x == b + (w + x);
    }
    forall w | Moved(host', path', host, path, w)
      ensures a + x == b + y
    {
      assert a + w + y == a + (w + y);
    }
  }

  lemma BoundaryMoved(a: string, x: string, b: string, y: string)
    requires a + x == b + y && |a| >= |b|
    ensures a == b + a[|b|..] && y == a[|b|..] + x
  {
    assert b == (b + y)[..|b|] && y == (b + y)[|b|..];
    assert (a + x)[..|b|] == a[..|b|] && (a + x)[|b|..] == a[|b|..] + x;
  }

  /** Without that shape different routes can share a key. */
  lemma UnshapedKeysCollide()
    ensures HttpRouteKey("a/b", "/c") == HttpRouteKey("a", "/b/c")
  {
    assert "a/b" + "/c" == "a" + "/b/c";
  }

  ghost predicate AllShaped(s: seq<RouteDefinition>) {
    forall r | r in s && r.IsHTTP() :: Shaped(r.host, r.path)
  }

  /** Compiled routes keep host and path of a route that went in. */
  lemma CompiledShaped(parse: StatusParser, s: seq<RouteDefinition>)
    requires AllShaped(s)
    ensures forall c | c in Compiled(parse, s).httpRoutes :: Shaped(c.host, c.path)
  {
    hide Winners, Keep, Healthy, Shaped, Key, WinnerFor;
    var kept := Keep(Winners(s, Http), ServedIn(Http));
    forall i | 0 <= i < |kept|
      ensures Shaped(kept[i].host, kept[i].path)
    {
      assert kept[i] in multiset(kept);
      KeepCount(Winners(s, Http), ServedIn(Http), kept[i]);
      WinnersCount(s, Http, kept[i]);
      WinnerFound(s, Http, Key(Http, kept[i]));
    }
  }

  lemma WinnerFound(s: seq<RouteDefinition>, kind: Kind, k: string)
    ensures WinnerFor(s, kind, k).Some? ==> WinnerFor(s, kind, k).value in s && InKind(kind, WinnerFor(s, kind, k).value)
  {
    if WinnerFor(s, kind, k).Some? {
      var i := FirstIn(s, Claiming(kind, k));
    }
  }

  /** Two compiled routes with the same host pattern never tie for a request: the longer
      path decides, and there are no two of the same length. */
  lemma NoTies(parse: StatusParser, s: seq<RouteDefinition>, q: Request, i: nat, j: nat)
    requires AllShaped(s) && i != j
    ensures var rs := Compiled(parse, s).httpRoutes;
            i < |rs| && j < |rs| && NormHost(rs[i].host) == NormHost(rs[j].host)
            && Matches(rs[i], q) && Matches(rs[j], q)
            ==> Outranks(rs[i], rs[j]) || Outranks(rs[j], rs[i])
  {
    hide Compiled, AllShaped, HostMatches;
    var rs := Compiled(parse, s).httpRoutes;
    CompiledShaped(parse, s);
    CompiledKeysDistinct(parse, s);
    if i < |rs| && j < |rs| && NormHost(rs[i].host) == NormHost(rs[j].host) && Matches(rs[i], q) && Matches(rs[j], q) {
      var a, b := rs[i], rs[j];
      assert HttpRouteKey(a.host, a.path) != HttpRouteKey(b.host, b.path);
    }
  }

  lemma SameLengthSamePath(a: HTTPRoute, b: HTTPRoute, path: string)
    requires Shaped(a.host, a.path) && Shaped(b.host, b.path) && PathLength(a) == PathLength(b)
    requires (IsRoot(a) || HasPrefix(path, a.path)) && (IsRoot(b) || HasPrefix(path, b.path))
    ensures NormPath(a.path) == NormPath(b.path)
  {
    if !IsRoot(a) && !IsRoot(b) {
      assert a.path == path[..|a.path|] && b.path == path[..|a.path|];
    }
  }

  // ----- TCP ------------------------------------------------------------------

  lemma TcpKeyInjective(port: int, sni: string, port': int, sni': string)
    requires TcpRouteKey(port, sni) == TcpRouteKey(port', sni')
    ensures port == port' && sni == sni'
  {
    hide Itoa;
    var x, y := if sni == "" then "" else "/" + sni, if sni' == "" then "" else "/" + sni';
    assert TcpRouteKey(port, sni)[1..] == Itoa(port) + x;
    assert TcpRouteKey(port', sni')[1..] == Itoa(port') + y;
    CutUnique(Itoa(port), x, Itoa(port'), y, '/');
    ItoaInjective(port, port');
    assert sni == "" || x[1..] == sni;
    assert sni' == "" || y[1..] == sni';
  }

  /** After compilation a port and a server name identify one route. */
  lemma CompiledTcpDistinct(parse: StatusParser, s: seq<RouteDefinition>)
    ensures var rs := Compiled(parse, s).tcpRoutes;
            forall i, j | 0 <= i < j < |rs| :: rs[i].port != rs[j].port || rs[i].sni != rs[j].sni
  {
    hide Compiled, TcpRouteKey;
    CompiledKeysDistinct(parse, s);
  }

  lemma {:induction false} OnPortDistinct(rs: seq<TCPRoute>, port: int)
    requires forall i, j | 0 <= i < j < |rs| :: rs[i].port != rs[j].port || rs[i].sni != rs[j].sni
    ensures var ps := OnPort(rs, port);
            && (forall r | r in ps :: r in rs)
            && forall i, j | 0 <= i < j < |ps| :: ps[i].sni != ps[j].sni
  {
    if rs != [] {
      var n := |rs| - 1;
      OnPortDistinct(rs[..n], port);
      assert forall r | r in rs[..n] :: r in rs;
      assert forall r | r in rs[..n] :: r.port != rs[n].port || r.sni != rs[n].sni;
    }
  }

  lemma FirstTwoDiffer(ps: seq<TCPRoute>)
    requires forall i, j | 0 <= i < j < |ps| :: ps[i].sni != ps[j].sni
    ensures |ps| >= 2 ==> ps[0].sni != ps[1].sni
  {
  }

  /** A port in the index without SNI routes holds exactly one route, so answering with
      the first one is answering with the only one. */
  lemma PlainPortHasOneRoute(parse: StatusParser, s: seq<RouteDefinition>, byPort: map<int, PortRoutes>, port: int)
    ensures Indexes(byPort, Compiled(parse, s).tcpRoutes) && port in byPort && !byPort[port].anySNI
            ==> |byPort[port].routes| == 1
  {
    hide Compiled;
    CompiledTcpDistinct(parse, s);
    OnPortDistinct(Compiled(parse, s).tcpRoutes, port);
    var ps := OnPort(Compiled(parse, s).tcpRoutes, port);
    FirstTwoDiffer(ps);
    if Indexes(byPort, Compiled(parse, s).tcpRoutes) && port in byPort && !byPort[port].anySNI {
      assert forall i | 0 <= i < |ps| :: ps[i].sni == "";
    }
  }
}
