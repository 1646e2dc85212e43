/** The HTTP route table of route_table.go. */
module RouteTable {
  import opened Prelude
  import opened Strings
  import opened Types
  import opened HostMatch

  /** A request as `Match` sees it: host lower-cased, with and without its port. */
  datatype Request = Request(host: string, hostOnly: string, path: string)

  function ToRequest(host: string, path: string): Request {
    var h := Lower(host);
    var idx := LastIndex(h, ':');
    Request(h, if idx > 0 then h[..idx] else h, if path == "" then "/" else path)
  }

  /** Case does not matter, and a port is cut off for patterns that have none. */
  lemma RequestNormalised(host: string, port: string, path: string)
    requires host != "" && ':' !in port
    ensures ToRequest(Lower(host), path) == ToRequest(host, path)
    ensures ToRequest(host + ":" + port, path).hostOnly == Lower(host)
  {
    assert Lower(Lower(host)) == Lower(host);
    var h := Lower(host + ":" + port);
    assert h[|host|] == ':' && forall i | |host| < i < |h| :: h[i] == LowerChar(port[i - |host| - 1]) != ':';
    assert h[..|host|] == Lower(host);
  }

  predicate HostMatches(r: HTTPRoute, q: Request) {
    MatchHost(r.host, if RouteHasPort(r.host) then q.host else q.hostOnly)
  }

  predicate IsRoot(r: HTTPRoute) { r.path == "" || r.path == "/" }

  predicate Matches(r: HTTPRoute, q: Request) {
    HostMatches(r, q) && (IsRoot(r) || HasPrefix(q.path, r.path))
  }

  function PathLength(r: HTTPRoute): nat { if IsRoot(r) then 0 else |r.path| }

  /** The ranking: port-specific before portless, then the longer path. */
  predicate Outranks(a: HTTPRoute, b: HTTPRoute) {
    if RouteHasPort(a.host) != RouteHasPort(b.host) then RouteHasPort(a.host)
    else PathLength(a) > PathLength(b)
  }

  // ----- What matches, in terms of the request as it comes in -------------------

  /** A pattern for a name in lower case: empty, a wildcard, or the name itself. */
  ghost predicate PatternFits(pattern: string, name: string) {
    || pattern == ""
    || (exists domain, front :: pattern == "*." + domain && name == front + "." + Lower(domain))
    || (pattern != "" && (|pattern| < 2 || pattern[..2] != "*.") && name == Lower(pattern))
  }

  /** A route's path for a request's: the root, or a prefix. */
  ghost predicate PathFits(routePath: string, path: string) {
    var p := if path == "" then "/" else path;
    routePath == "" || routePath == "/" || (|routePath| <= |p| && p[..|routePath|] == routePath)
  }

  lemma PatternFitsExactly(pattern: string, name: string)
    ensures MatchHost(pattern, name) <==> PatternFits(pattern, name)
  {
    if |pattern| >= 2 && pattern[..2] == "*." {
      var domain := pattern[2..];
      assert pattern == "*." + domain;
      WildcardExactly(domain, name);
      forall d | pattern == "*." + d
        ensures d == domain
      {
        assert ("*." + d)[2..] == d;
      }
    } else {
      assert forall d :: |"*." + d| >= 2 && ("*." + d)[..2] == "*.";
      assert !HasPrefix(Lower(pattern), "*.") by {
        if |pattern| >= 2 {
          assert pattern[..2] == [pattern[0], pattern[1]];
          assert Lower(pattern)[0] == LowerChar(pattern[0]) && Lower(pattern)[1] == LowerChar(pattern[1]);
        }
      }
    }
  }

  /** A request for host:port. A pattern with a port is held against both, one without
      against the host alone; letter case does not matter. */
  lemma MatchesWithPort(r: HTTPRoute, host: string, port: string, path: string)
    requires host != "" && ':' !in port
    ensures Matches(r, ToRequest(host + ":" + port, path)) <==>
            && PatternFits(r.host, if RouteHasPort(r.host) then Lower(host + ":" + port) else Lower(host))
            && PathFits(r.path, path)
  {
    RequestNormalised(host, port, path);
    PatternFitsExactly(r.host, if RouteHasPort(r.host) then Lower(host + ":" + port) else Lower(host));
    hide MatchHost, RouteHasPort, PatternFits, PathFits, Lower;
  }

  /** A request for a host without a port: one with no ':' but perhaps a leading one. */
  lemma MatchesWithoutPort(r: HTTPRoute, host: string, path: string)
    requires forall i | 0 < i < |host| :: host[i] != ':'
    ensures Matches(r, ToRequest(host, path)) <==> PatternFits(r.host, Lower(host)) && PathFits(r.path, path)
  {
    assert forall i | 0 < i < |host| :: Lower(host)[i] == LowerChar(host[i]) != ':';
    PatternFitsExactly(r.host, Lower(host));
    hide MatchHost, RouteHasPort, PatternFits, PathFits, Lower;
  }

  /** Every request is of one of the two forms. */
  lemma WithOrWithoutPort(host: string) returns (front: string, port: string)
    ensures (forall i | 0 < i < |host| :: host[i] != ':') || (front != "" && ':' !in port && host == front + ":" + port)
  {
    var idx := LastIndex(host, ':');
    front, port := "", "";
    if idx > 0 {
      front, port := host[..idx], host[idx + 1..];
      assert host == front + ":" + port;
    }
  }

  /** A route with a port before one without, else the longer path, the root being shortest. */
  lemma OutranksExactly(a: HTTPRoute, b: HTTPRoute)
    ensures Outranks(a, b) <==>
            || (RouteHasPort(a.host) && !RouteHasPort(b.host))
            || (&& RouteHasPort(a.host) == RouteHasPort(b.host) && a.path != "" && a.path != "/"
                && (b.path == "" || b.path == "/" || |a.path| > |b.path|))
  {
    hide RouteHasPort;
  }

  // ----- The table ----------------------------------------------------------------

  /** The earliest of the matching routes that none outranks. */
  predicate IsBest(routes: seq<HTTPRoute>, q: Request, i: nat) {
    && i < |routes| && Matches(routes[i], q)
    && forall j | 0 <= j < |routes| && Matches(routes[j], q) ::
         !Outranks(routes[j], routes[i]) && (j < i ==> Outranks(routes[i], routes[j]))
  }

  class RouteTable {
    var routes: seq<HTTPRoute>

    constructor ()
      ensures routes == []
    {
      routes := [];
    }

    method Update(routes: seq<HTTPRoute>)
      modifies this
      ensures this.routes == routes
    {
      this.routes := routes;
    }

    /** The index stands for the returned pointer. */
    method Match(host: string, path: string) returns (best: Option<nat>)
      ensures best.Some? ==> IsBest(routes, ToRequest(host, path), best.value)
      ensures best.None? <==> forall i | 0 <= i < |routes| :: !Matches(routes[i], ToRequest(host, path))
    {
      var q := ToRequest(host, path);
      best := None;
      var bestPathLen, bestHasPort := -1, false;
      hide RouteHasPort, HostMatches;
      for i := 0 to |routes|
        invariant best.Some? ==>
                    && IsBest(routes[..i], q, best.value)
                    && bestPathLen == PathLength(routes[best.value]) && bestHasPort == RouteHasPort(routes[best.value].host)
        invariant best.None? ==> forall j | 0 <= j < i :: !Matches(routes[j], q)
      {
        var r := routes[i];
        var hasPort := RouteHasPort(r.host);
        if HostMatches(r, q) {
          var pathLen := if IsRoot(r) then 0 else |r.path|;
          if IsRoot(r) || HasPrefix(q.path, r.path) {
            if best.None? || (hasPort && !bestHasPort) || (hasPort == bestHasPort && pathLen > bestPathLen) {
              best, bestPathLen, bestHasPort := Some(i), pathLen, hasPort;
            }
          }
        }
        assert routes[..i + 1][..i] == routes[..i];
        assert forall j | 0 <= j < i :: routes[..i + 1][j] == routes[..i][j];
      }
      assert routes[..|routes|] == routes;
    }
  }

  lemma BestIsUnique(routes: seq<HTTPRoute>, q: Request, i: nat, j: nat)
    requires IsBest(routes, q, i) && IsBest(routes, q, j)
    ensures i == j
  {
  }

  /** The table's own comment promises that an exact host beats a wildcard. The ranking
      does not look at that: here the wildcard's longer path wins. */
  lemma WildcardCanBeatExact(wild: HTTPRoute, exact: HTTPRoute)
    requires wild.host == "*.b" && wild.path == "/x" && exact.host == "a.b" && exact.path == "/"
    ensures IsBest([exact, wild], ToRequest("a.b", "/x"), 1)
  {
    assert Lower("a.b") == "a.b" && Lower("*.b") == "*.b";
    var q := ToRequest("a.b", "/x");
    assert q.host == q.hostOnly == "a.b";
    assert "*.b"[1..] == ".b" && "a.b"[1..] == ".b" && "*.b"[2..] == "b";
    assert HostMatches(wild, q) && HostMatches(exact, q);
    assert Outranks(wild, exact);
  }

  /** The ranking with its tie-break by position: route `i` is answered before route `j`. */
  predicate Beats(routes: seq<HTTPRoute>, i: nat, j: nat)
    requires i < |routes| && j < |routes|
  {
    Outranks(routes[i], routes[j]) || (!Outranks(routes[j], routes[i]) && i < j)
  }

  lemma BeatsTotal(routes: seq<HTTPRoute>, i: nat, j: nat)
    requires i < |routes| && j < |routes| && i != j
    ensures Beats(routes, i, j) <==> !Beats(routes, j, i)
  {
    hide RouteHasPort;
  }

  lemma BestBeatsAll(routes: seq<HTTPRoute>, q: Request, i: nat)
    ensures IsBest(routes, q, i) <==>
            && i < |routes| && Matches(routes[i], q)
            && forall j | 0 <= j < |routes| && Matches(routes[j], q) && j != i :: Beats(routes, i, j)
  {
    hide Matches, RouteHasPort;
  }

  /** The answer is in a class of patterns exactly if some matching route of the class
      beats every matching route outside it. */
  lemma ClassWinsExactly(routes: seq<HTTPRoute>, q: Request, i: nat, c: HTTPRoute -> bool)
    requires IsBest(routes, q, i)
    ensures c(routes[i]) <==>
            exists e | 0 <= e < |routes| :: Matches(routes[e], q) && c(routes[e])
              && forall w | 0 <= w < |routes| && Matches(routes[w], q) && !c(routes[w]) :: Beats(routes, e, w)
  {
    BestBeatsAll(routes, q, i);
    hide Matches, IsBest, Outranks;
    forall e | 0 <= e < |routes| && Matches(routes[e], q) && c(routes[e]) && !c(routes[i])
      ensures !Beats(routes, e, i)
    {
      BeatsTotal(routes, e, i);
    }
  }

  /** A pattern for many hosts: a wildcard, or the empty one, which matches everything. */
  predicate IsWild(r: HTTPRoute) { r.host == "" || HasPrefix(r.host, "*.") }

  /** Exactly when the promise is kept, for every table and request: some matching exact
      host is, against each matching wildcard, at least as specific in port and path, and
      listed first where they are equal there. */
  lemma ExactBeatsWildcardExactly(routes: seq<HTTPRoute>, q: Request, i: nat)
    requires IsBest(routes, q, i)
    ensures !IsWild(routes[i]) <==>
            exists e | 0 <= e < |routes| :: Matches(routes[e], q) && !IsWild(routes[e])
              && forall w | 0 <= w < |routes| && Matches(routes[w], q) && IsWild(routes[w]) :: Beats(routes, e, w)
  {
    hide Matches, IsBest, Beats;
    ClassWinsExactly(routes, q, i, r => !IsWild(r));
  }
}
