/** The route compiler of compiler.go: sort, claim, drop. */
module Compiler {
  import opened Prelude
  import opened Strings
  import opened Types

  // ----- Order of claimants ---------------------------------------------------

  /** The `less` function handed to `sort.Slice`. */
  predicate Before(a: RouteDefinition, b: RouteDefinition) {
    if a.priority != b.priority then a.priority > b.priority else Less(a.serviceName, b.serviceName)
  }

  predicate Sorted(s: seq<RouteDefinition>) { forall i, j | 0 <= i < j < |s| :: !Before(s[j], s[i]) }

  lemma BeforeTransitive(a: RouteDefinition, b: RouteDefinition, c: RouteDefinition)
    requires Before(a, b) && Before(b, c)
    ensures Before(a, c)
  {
    if a.priority == b.priority == c.priority {
      LessTransitive(a.serviceName, b.serviceName, c.serviceName);
    }
  }

  /** Neither sorts in front of the other exactly when priority and name agree. */
  predicate Tied(a: RouteDefinition, b: RouteDefinition) {
    a.priority == b.priority && a.serviceName == b.serviceName
  }

  lemma TiedMeansUnordered(a: RouteDefinition, b: RouteDefinition)
    ensures !Before(a, b) && !Before(b, a) <==> Tied(a, b)
  {
    LessTotal(a.serviceName, b.serviceName);
    LessIrreflexive(a.serviceName);
  }

  /** `sort.Slice`: some sorted permutation, in place; tied elements end up in any order. */
  method SortSlice(a: array<RouteDefinition>)
    modifies a
    ensures Sorted(a[..]) && multiset(a[..]) == multiset(old(a[..]))
  {
    hide Before;
    for i := 0 to a.Length
      invariant multiset(a[..]) == multiset(old(a[..]))
      invariant forall p, q | 0 <= p < q < a.Length && p < i :: !Before(a[q], a[p])
    {
      var m := LeastFrom(a, i);
      Swap(a, i, m);
    }
  }

  method Swap(a: array<RouteDefinition>, i: nat, m: nat)
    requires i <= m < a.Length
    modifies a
    ensures multiset(a[..]) == multiset(old(a[..]))
    ensures a[i] == old(a[m]) && a[m] == old(a[i])
    ensures forall k | 0 <= k < a.Length && k != i && k != m :: a[k] == old(a[k])
  {
    a[i], a[m] := a[m], a[i];
  }

  method LeastFrom(a: array<RouteDefinition>, i: nat) returns (m: nat)
    requires i < a.Length
    ensures i <= m < a.Length && forall q | i <= q < a.Length :: !Before(a[q], a[m])
  {
    m := i;
    TiedMeansUnordered(a[i], a[i]);
    for j := i + 1 to a.Length
      invariant i <= m < a.Length && forall q | i <= q < j :: !Before(a[q], a[m])
    {
      if Before(a[j], a[m]) {
        forall q | i <= q < j && Before(a[q], a[j])
          ensures false
        {
          BeforeTransitive(a[q], a[j], a[m]);
        }
        TiedMeansUnordered(a[j], a[j]);
        m := j;
      }
    }
  }

  // ----- Keys -----------------------------------------------------------------

  function HttpRouteKey(host: string, path: string): string {
    (if host == "" then "*" else host) + (if path == "" then "/" else path)
  }

  function TcpRouteKey(port: int, sni: string): string {
    if sni == "" then ":" + Itoa(port) else ":" + Itoa(port) + "/" + sni
  }

  /** The two families of routes; each is claimed under its own keys. */
  datatype Kind = Http | Tcp

  predicate InKind(kind: Kind, r: RouteDefinition) {
    if kind == Http then r.IsHTTP() else r.IsTCP()
  }

  function Key(kind: Kind, r: RouteDefinition): string {
    if kind == Http then HttpRouteKey(r.host, r.path) else TcpRouteKey(r.port, r.host)
  }

  function OfKind(kind: Kind): RouteDefinition -> bool { r => InKind(kind, r) }

  function Claiming(kind: Kind, k: string): RouteDefinition -> bool { r => InKind(kind, r) && Key(kind, r) == k }

  // ----- Claims over a sorted list --------------------------------------------

  datatype Conflict = Conflict(kind: Kind, winner: RouteDefinition, loser: RouteDefinition)

  function WinnerFor(s: seq<RouteDefinition>, kind: Kind, k: string): Option<RouteDefinition> {
    First(s, Claiming(kind, k))
  }

  /** The first claimant of every key, in order. */
  function Winners(s: seq<RouteDefinition>, kind: Kind): (ws: seq<RouteDefinition>) {
    if s == [] then [] else
      var n := |s| - 1;
      Winners(s[..n], kind)
      + if InKind(kind, s[n]) && WinnerFor(s[..n], kind, Key(kind, s[n])).None? then [s[n]] else []
  }

  function Conflicts(s: seq<RouteDefinition>, kind: Kind): seq<Conflict> {
    if s == [] then [] else
      var n := |s| - 1;
      var w := WinnerFor(s[..n], kind, Key(kind, s[n]));
      Conflicts(s[..n], kind) + if InKind(kind, s[n]) && w.Some? then [Conflict(kind, w.value, s[n])] else []
  }

  // ----- Compiled routes ------------------------------------------------------

  predicate IsHealthy(u: Upstream) { u.healthy }

  function Healthy(ups: seq<Upstream>): seq<Upstream> { Keep(ups, IsHealthy) }

  /** A first claimant is served unless it needs upstreams and has no healthy one. */
  predicate Served(kind: Kind, r: RouteDefinition) {
    (kind == Http && r.IsRedirect()) || Healthy(r.upstreams) != []
  }

  function ServedIn(kind: Kind): RouteDefinition -> bool { r => Served(kind, r) }

  function UnservedIn(kind: Kind): RouteDefinition -> bool { r => !Served(kind, r) }

  /** How a status specification is read; the matcher is represented by its text. */
  type StatusParser = string -> Option<string>

  function ToHTTP(parse: StatusParser, r: RouteDefinition): HTTPRoute {
    var optOut := r.hasNoCacheStatus && r.noCacheStatusRaw == "";
    var matcher := if r.hasNoCacheStatus && !optOut then parse(r.noCacheStatusRaw) else None;
    if r.IsRedirect() then
      HTTPRoute(r.host, r.path, [], r.stripPrefix, r.serviceName, r.via,
                r.redirectCode, r.redirectURL, r.redirectNoCache, matcher, optOut, r.tagValues)
    else
      HTTPRoute(r.host, r.path, Healthy(r.upstreams), r.stripPrefix, r.serviceName, r.via,
                0, "", false, matcher, optOut, r.tagValues)
  }

  function HTTPFrom(parse: StatusParser): RouteDefinition -> HTTPRoute { r => ToHTTP(parse, r) }

  function ToTCP(r: RouteDefinition): TCPRoute {
    TCPRoute(r.port, r.host, Healthy(r.upstreams), r.protocol == TLSPassthrough, r.serviceName)
  }

  datatype Warning = UnknownProtocol(protocol: Protocol, serviceName: string)

  predicate Unknown(r: RouteDefinition) { !r.IsHTTP() && !r.IsTCP() }

  function ToWarning(r: RouteDefinition): Warning { UnknownProtocol(r.protocol, r.serviceName) }

  datatype CompiledConfig = CompiledConfig(
    httpRoutes: seq<HTTPRoute>, tcpRoutes: seq<TCPRoute>, conflicts: seq<Conflict>, warnings: seq<Warning>)

  /** What compiling means once the order is fixed. */
  function Compiled(parse: StatusParser, s: seq<RouteDefinition>): CompiledConfig {
    CompiledConfig(
      Image(Keep(Winners(s, Http), ServedIn(Http)), HTTPFrom(parse)),
      Image(Keep(Winners(s, Tcp), ServedIn(Tcp)), ToTCP),
      Conflicts(s, Http) + Conflicts(s, Tcp),
      Image(Keep(s, Unknown), ToWarning))
  }

  /** The claim map after a prefix of the list. */
  ghost predicate ClaimsOf(claimed: map<string, RouteDefinition>, s: seq<RouteDefinition>, kind: Kind) {
    forall k :: WinnerFor(s, kind, k) == if k in claimed then Some(claimed[k]) else None
  }

  lemma ClaimStep(claimed: map<string, RouteDefinition>, s: seq<RouteDefinition>, i: nat, kind: Kind)
    requires i < |s| && InKind(kind, s[i]) && ClaimsOf(claimed, s[..i], kind)
    ensures var k := Key(kind, s[i]);
            ClaimsOf(if k in claimed then claimed else claimed[k := s[i]], s[..i + 1], kind)
    ensures s[..i + 1][..i] == s[..i] && s[..i + 1][i] == s[i]
  {
    hide First, Key, InKind;
    var k := Key(kind, s[i]);
    var claimed' := if k in claimed then claimed else claimed[k := s[i]];
    assert s[..i + 1][..i] == s[..i];
    forall k'
      ensures WinnerFor(s[..i + 1], kind, k') == if k' in claimed' then Some(claimed'[k']) else None
    {
      FirstSnoc(s[..i + 1], Claiming(kind, k'));
    }
  }

  class RouteCompiler {
    const parseStatus: StatusParser

    constructor (parseStatus: StatusParser)
      ensures this.parseStatus == parseStatus
    {
      this.parseStatus := parseStatus;
    }

    method CompileHTTPRoutes(routes: seq<RouteDefinition>) returns (compiled: seq<HTTPRoute>, conflicts: seq<Conflict>)
      requires forall r | r in routes :: r.IsHTTP()
      ensures compiled == Image(Keep(Winners(routes, Http), ServedIn(Http)), HTTPFrom(parseStatus))
      ensures conflicts == Conflicts(routes, Http)
    {
      compiled, conflicts := [], [];
      assert routes[..0] == [];
      assert compiled == Image(Keep(Winners([], Http), ServedIn(Http)), HTTPFrom(parseStatus)) && conflicts == Conflicts([], Http);
      hide First, Winners, Conflicts, Keep, Image, ToHTTP, ToTCP, HttpRouteKey, TcpRouteKey;
      var claimed: map<string, RouteDefinition> := map[];
      for i := 0 to |routes|
        invariant ClaimsOf(claimed, routes[..i], Http)
        invariant compiled == Image(Keep(Winners(routes[..i], Http), ServedIn(Http)), HTTPFrom(parseStatus))
        invariant conflicts == Conflicts(routes[..i], Http)
      {
        var r := routes[i];
        var key := HttpRouteKey(r.host, r.path);
        ClaimStep(claimed, routes, i, Http);
        WinnersStep(routes, i, Http);
        if key in claimed {
          conflicts := conflicts + [Conflict(Http, claimed[key], r)];
        } else {
          claimed := claimed[key := r];
          SnocKept(Winners(routes[..i], Http), r, ServedIn(Http), HTTPFrom(parseStatus));
          if r.IsRedirect() {
            compiled := compiled + [ToHTTP(parseStatus, r)];
          } else {
            var healthy := Healthy(r.upstreams);
            if healthy != [] {
              compiled := compiled + [ToHTTP(parseStatus, r)];
            }
          }
        }
      }
      assert routes[..|routes|] == routes;
    }

    method CompileTCPRoutes(routes: seq<RouteDefinition>) returns (compiled: seq<TCPRoute>, conflicts: seq<Conflict>)
      requires forall r | r in routes :: r.IsTCP()
      ensures compiled == Image(Keep(Winners(routes, Tcp), ServedIn(Tcp)), ToTCP)
      ensures conflicts == Conflicts(routes, Tcp)
    {
      compiled, conflicts := [], [];
      assert routes[..0] == [];
      assert compiled == Image(Keep(Winners([], Tcp), ServedIn(Tcp)), ToTCP) && conflicts == Conflicts([], Tcp);
      hide First, Winners, Conflicts, Keep, Image, ToHTTP, ToTCP, HttpRouteKey, TcpRouteKey;
      var claimed: map<string, RouteDefinition> := map[];
      for i := 0 to |routes|
        invariant ClaimsOf(claimed, routes[..i], Tcp)
        invariant compiled == Image(Keep(Winners(routes[..i], Tcp), ServedIn(Tcp)), ToTCP)
        invariant conflicts == Conflicts(routes[..i], Tcp)
      {
        var r := routes[i];
        var key := TcpRouteKey(r.port, r.host);
        ClaimStep(claimed, routes, i, Tcp);
        WinnersStep(routes, i, Tcp);
        if key in claimed {
          conflicts := conflicts + [Conflict(Tcp, claimed[key], r)];
        } else {
          claimed := claimed[key := r];
          SnocKept(Winners(routes[..i], Tcp), r, ServedIn(Tcp), ToTCP);
          var healthy := Healthy(r.upstreams);
          if healthy != [] {
            compiled := compiled + [ToTCP(r)];
          }
        }
      }
      assert routes[..|routes|] == routes;
    }

    /** The loop of `Compile` that separates the sorted routes by protocol. */
    method Separate(s: seq<RouteDefinition>)
      returns (http: seq<RouteDefinition>, tcp: seq<RouteDefinition>, warnings: seq<Warning>)
      ensures http == Keep(s, OfKind(Http)) && tcp == Keep(s, OfKind(Tcp))
      ensures warnings == Image(Keep(s, Unknown), ToWarning)
    {
      http, tcp, warnings := [], [], [];
      assert s[..0] == [] && Image(Keep([], Unknown), ToWarning) == [];
      hide Keep, Image, OfKind, Unknown, ToWarning;
      for i := 0 to |s|
        invariant http == Keep(s[..i], OfKind(Http)) && tcp == Keep(s[..i], OfKind(Tcp))
        invariant warnings == Image(Keep(s[..i], Unknown), ToWarning)
      {
        var r := s[i];
        SeparateStep(s, i);
        if r.protocol == HTTP || r.protocol == HTTPS {
          http := http + [r];
        } else if r.protocol == TCP || r.protocol == TLSPassthrough {
          tcp := tcp + [r];
        } else {
          warnings := warnings + [UnknownProtocol(r.protocol, r.serviceName)];
        }
      }
      assert s[..|s|] == s;
    }

    /** Sorts the caller's slice in place and compiles what it then holds. */
    method Compile(routes: array<RouteDefinition>) returns (result: CompiledConfig)
      modifies routes
      ensures Sorted(routes[..]) && multiset(routes[..]) == multiset(old(routes[..]))
      ensures result == Compiled(parseStatus, routes[..])
    {
      hide Winners, Conflicts, Keep, Image, Sorted;
      SortSlice(routes);
      var httpRoutes, tcpRoutes, warnings := Separate(routes[..]);
      var http, httpConflicts := CompileHTTPRoutes(httpRoutes);
      var tcp, tcpConflicts := CompileTCPRoutes(tcpRoutes);
      SplitByKind(routes[..], Http);
      SplitByKind(routes[..], Tcp);
      result := CompiledConfig(http, tcp, httpConflicts + tcpConflicts, warnings);
    }
  }

  /** One turn of the loop that separates the routes. */
  lemma SeparateStep(s: seq<RouteDefinition>, i: nat)
    requires i < |s|
    ensures var p := s[i].protocol;
            && Keep(s[..i + 1], OfKind(Http)) ==
               Keep(s[..i], OfKind(Http)) + (if p == HTTP || p == HTTPS then [s[i]] else [])
            && Keep(s[..i + 1], OfKind(Tcp)) ==
               Keep(s[..i], OfKind(Tcp)) + (if p == TCP || p == TLSPassthrough then [s[i]] else [])
            && Image(Keep(s[..i + 1], Unknown), ToWarning) ==
               Image(Keep(s[..i], Unknown), ToWarning)
               + (if p.OtherProtocol? then [UnknownProtocol(p, s[i].serviceName)] else [])
  {
    hide Keep, Image;
    assert s[..i + 1] == s[..i] + [s[i]];
    KeepSnoc(s[..i], s[i], OfKind(Http));
    KeepSnoc(s[..i], s[i], OfKind(Tcp));
    SnocKept(s[..i], s[i], Unknown, ToWarning);
  }

  lemma WinnersStep(s: seq<RouteDefinition>, i: nat, kind: Kind)
    requires i < |s|
    ensures var w := WinnerFor(s[..i], kind, Key(kind, s[i]));
            var ws, cs := Winners(s[..i], kind), Conflicts(s[..i], kind);
            && Winners(s[..i + 1], kind) == (if InKind(kind, s[i]) && w.None? then ws + [s[i]] else ws)
            && Conflicts(s[..i + 1], kind) ==
               (if InKind(kind, s[i]) && w.Some? then cs + [Conflict(kind, w.value, s[i])] else cs)
  {
    hide First, Key, InKind;
    assert s[..i + 1][..i] == s[..i];
  }

  lemma SnocKept<T, U>(s: seq<T>, x: T, p: T -> bool, f: T -> U)
    ensures Image(Keep(s + [x], p), f) == if p(x) then Image(Keep(s, p), f) + [f(x)] else Image(Keep(s, p), f)
  {
    KeepSnoc(s, x, p);
  }

  /** Claims of one kind are not disturbed by routes of the other. */
  lemma {:induction false} SplitByKind(s: seq<RouteDefinition>, kind: Kind)
    ensures Winners(Keep(s, OfKind(kind)), kind) == Winners(s, kind)
    ensures Conflicts(Keep(s, OfKind(kind)), kind) == Conflicts(s, kind)
  {
    hide First, Key, InKind;
    if s != [] {
      var n := |s| - 1;
      SplitByKind(s[..n], kind);
      if InKind(kind, s[n]) {
        var kept := Keep(s, OfKind(kind));
        assert kept[..|kept| - 1] == Keep(s[..n], OfKind(kind));
        WinnerInKind(s[..n], kind, Key(kind, s[n]));
      } else {
        assert Keep(s, OfKind(kind)) == Keep(s[..n], OfKind(kind));
      }
    }
  }

  lemma WinnerInKind(s: seq<RouteDefinition>, kind: Kind, k: string)
    ensures WinnerFor(Keep(s, OfKind(kind)), kind, k) == WinnerFor(s, kind, k)
  {
    FirstKeep(s, OfKind(kind), Claiming(kind, k));
    FirstSame(s, Both(OfKind(kind), Claiming(kind, k)), Claiming(kind, k));
  }
}
