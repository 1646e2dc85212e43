/** The TCP route table of tcp_table.go: a per-port index over the compiled routes. */
module TcpTable {
  import opened Prelude
  import opened Strings
  import opened Types
  import opened HostMatch

  // ----- What a lookup means: a plain scan over the route list ----------------

  function Exact(sni: string): TCPRoute -> bool {
    (r: TCPRoute) => r.sni != "" && Lower(r.sni) == Lower(sni)
  }

  function Wildcard(sni: string): TCPRoute -> bool {
    (r: TCPRoute) => HasPrefix(r.sni, "*.") && MatchHost(r.sni, Lower(sni))
  }

  function Default(): TCPRoute -> bool {
    (r: TCPRoute) => r.sni == ""
  }

  /** First exact SNI, else first wildcard, else first route without SNI. */
  function Scan(routes: seq<TCPRoute>, sni: string): Option<TCPRoute> {
    OrElse(First(routes, Exact(sni)), OrElse(First(routes, Wildcard(sni)), First(routes, Default())))
  }

  function Listening(port: int): TCPRoute -> bool {
    (r: TCPRoute) => r.port == port
  }

  function OnPort(routes: seq<TCPRoute>, port: int): seq<TCPRoute> { Keep(routes, Listening(port)) }

  predicate AnySNI(routes: seq<TCPRoute>) { exists i | 0 <= i < |routes| :: routes[i].sni != "" }

  /** The `anySNI` shortcut: without SNI routes the scan answers with the first route,
      whatever name was presented. */
  lemma ShortcutIsScan(routes: seq<TCPRoute>, sni: string)
    requires !AnySNI(routes)
    ensures Scan(routes, sni) == if routes == [] then None else Some(routes[0])
  {
    assert forall i | 0 <= i < |routes| :: Default()(routes[i]);
  }

  // ----- tcpPortRoutes --------------------------------------------------------

  datatype PortRoutes = PortRoutes(port: int, routes: seq<TCPRoute>, anySNI: bool)
  {
    predicate Valid() { anySNI == AnySNI(routes) }

    method Match(sni0: string) returns (r: Option<TCPRoute>)
      requires Valid()
      ensures r == Scan(routes, sni0)
    {
      hide First, MatchHost, Lower;
      if !anySNI {
        ShortcutIsScan(routes, sni0);
        if |routes| > 0 { return Some(routes[0]); }
        return None;
      }
      var sni := Lower(sni0);
      var wildcard: Option<TCPRoute>, dflt: Option<TCPRoute> := None, None;
      for i := 0 to |routes|
        invariant First(routes[..i], Exact(sni0)) == None
        invariant wildcard == First(routes[..i], Wildcard(sni0))
        invariant dflt == First(routes[..i], Default())
      {
        var q := routes[i];
        Snoc(routes, i, Exact(sni0));
        Snoc(routes, i, Wildcard(sni0));
        Snoc(routes, i, Default());
        if q.sni == "" {
          if dflt.None? { dflt := Some(q); }
        } else if Lower(q.sni) == sni {
          FirstConcat(routes[..i + 1], routes[i + 1..], Exact(sni0));
          assert routes == routes[..i + 1] + routes[i + 1..];
          return Some(q);
        } else if HasPrefix(q.sni, "*.") && MatchHost(q.sni, sni) {
          if wildcard.None? { wildcard := Some(q); }
        }
      }
      assert routes[..|routes|] == routes;
      if wildcard.Some? { return wildcard; }
      return dflt;
    }
  }

  lemma Snoc(routes: seq<TCPRoute>, i: nat, p: TCPRoute -> bool)
    requires i < |routes|
    ensures First(routes[..i + 1], p) ==
            OrElse(First(routes[..i], p), if p(routes[i]) then Some(routes[i]) else None)
  {
    FirstSnoc(routes[..i + 1], p);
    assert routes[..i + 1][..i] == routes[..i];
  }

  // ----- TCPTable -------------------------------------------------------------

  /** The table the index holds for a route list. */
  ghost predicate Indexes(byPort: map<int, PortRoutes>, routes: seq<TCPRoute>) {
    && (forall p :: p in byPort <==> OnPort(routes, p) != [])
    && (forall p | p in byPort :: byPort[p] == PortRoutes(p, OnPort(routes, p), AnySNI(OnPort(routes, p))))
  }

  class TCPTable {
    var byPort: map<int, PortRoutes>

    constructor ()
      ensures byPort == map[] && Indexes(byPort, [])
    {
      byPort := map[];
    }

    method Update(routes: seq<TCPRoute>)
      modifies this
      ensures Indexes(byPort, routes)
    {
      var index: map<int, PortRoutes> := map[];
      assert Indexes(index, routes[..0]);
      hide Indexes;
      for i := 0 to |routes|
        invariant Indexes(index, routes[..i])
      {
        var r := routes[i];
        var pr := if r.port in index then index[r.port] else PortRoutes(r.port, [], false);
        IndexStep(index, routes, i);
        index := index[r.port := PortRoutes(pr.port, pr.routes + [r], pr.anySNI || r.sni != "")];
      }
      assert routes[..|routes|] == routes;
      byPort := index;
    }

    method Lookup(port: int) returns (pr: Option<PortRoutes>)
      ensures pr == if port in byPort then Some(byPort[port]) else None
    {
      pr := if port in byPort then Some(byPort[port]) else None;
    }

    method Ports() returns (ports: set<int>)
      ensures ports == byPort.Keys
    {
      ports := byPort.Keys;
    }
  }

  /** One route more in the index. */
  lemma IndexStep(index: map<int, PortRoutes>, routes: seq<TCPRoute>, i: nat)
    requires i < |routes| && Indexes(index, routes[..i])
    ensures var r := routes[i];
            var pr := if r.port in index then index[r.port] else PortRoutes(r.port, [], false);
            Indexes(index[r.port := PortRoutes(pr.port, pr.routes + [r], pr.anySNI || r.sni != "")], routes[..i + 1])
  {
    hide OnPort, AnySNI;
    OnPortSnoc(routes, i);
    NoRoutesNoSNI();
  }

  lemma NoRoutesNoSNI()
    ensures !AnySNI([])
  {
  }

  lemma OnPortSnoc(routes: seq<TCPRoute>, i: nat)
    requires i < |routes|
    ensures forall p :: OnPort(routes[..i + 1], p) ==
                        if routes[i].port == p then OnPort(routes[..i], p) + [routes[i]] else OnPort(routes[..i], p)
    ensures forall p :: AnySNI(OnPort(routes[..i + 1], p)) ==
                        (AnySNI(OnPort(routes[..i], p)) || (routes[i].port == p && routes[i].sni != ""))
  {
    assert routes[..i + 1] == routes[..i] + [routes[i]];
    forall p
      ensures OnPort(routes[..i + 1], p) ==
              if routes[i].port == p then OnPort(routes[..i], p) + [routes[i]] else OnPort(routes[..i], p)
      ensures AnySNI(OnPort(routes[..i + 1], p)) ==
              (AnySNI(OnPort(routes[..i], p)) || (routes[i].port == p && routes[i].sni != ""))
    {
      KeepSnoc(routes[..i], routes[i], Listening(p));
      var a, b := OnPort(routes[..i], p), OnPort(routes[..i + 1], p);
      assert forall k | 0 <= k < |a| :: b[k] == a[k];
      if routes[i].port == p { assert b[|a|] == routes[i]; }
    }
  }

  // ----- The index refines the flat list --------------------------------------

  /** The scan of the whole list, restricted to one port. */
  function FlatScan(routes: seq<TCPRoute>, port: int, sni: string): Option<TCPRoute> {
    OrElse(First(routes, Both(Listening(port), Exact(sni))),
    OrElse(First(routes, Both(Listening(port), Wildcard(sni))), First(routes, Both(Listening(port), Default()))))
  }

  // ----- What the scan answers, in terms of the names -----------------------------------

  /** How well a route fits a server name: 2 for the same name in any letter case, 1 for a
      wildcard above it, 0 for a route without a name, -1 if it does not fit. */
  ghost function Fit(r: TCPRoute, sni: string): int {
    if r.sni != "" && SameIgnoringCase(r.sni, sni) then 2
    else if exists domain, front :: r.sni == "*." + domain && Lower(sni) == front + "." + Lower(domain) then 1
    else if r.sni == "" then 0 else -1
  }

  /** The earliest of the best-fitting routes on the port. */
  ghost predicate Earliest(routes: seq<TCPRoute>, port: int, sni: string, i: nat) {
    && i < |routes| && routes[i].port == port && Fit(routes[i], sni) >= 0
    && forall j | 0 <= j < |routes| && routes[j].port == port ::
         Fit(routes[j], sni) <= Fit(routes[i], sni) && (j < i ==> Fit(routes[j], sni) < Fit(routes[i], sni))
  }

  lemma FitExactly(r: TCPRoute, sni: string)
    ensures Fit(r, sni) == if Exact(sni)(r) then 2 else if Wildcard(sni)(r) then 1 else if Default()(r) then 0 else -1
  {
    LowerExactly(r.sni, sni);
    if HasPrefix(r.sni, "*.") {
      var domain := r.sni[2..];
      assert r.sni == "*." + domain;
      WildcardExactly(domain, Lower(sni));
      forall d | r.sni == "*." + d
        ensures d == domain
      {
        assert ("*." + d)[2..] == d;
      }
    }
  }

  lemma FirstAt<T>(s: seq<T>, p: T -> bool, i: nat)
    requires i < |s| && p(s[i]) && forall j | 0 <= j < i :: !p(s[j])
    ensures First(s, p) == Some(s[i])
  {
    var k := FirstIn(s, p);
  }

  /** The search of one class: it is empty, or its first member is found. */
  lemma FirstOnPort(routes: seq<TCPRoute>, port: int, p: TCPRoute -> bool) returns (i: nat)
    ensures var f := First(routes, Both(Listening(port), p));
            && (f.None? ==> forall j | 0 <= j < |routes| && routes[j].port == port :: !p(routes[j]))
            && (f.Some? ==> && i < |routes| && f == Some(routes[i]) && routes[i].port == port && p(routes[i])
                            && forall j | 0 <= j < i && routes[j].port == port :: !p(routes[j]))
  {
    i := 0;
    if First(routes, Both(Listening(port), p)).Some? {
      i := FirstIn(routes, Both(Listening(port), p));
    } else {
      assert forall j | 0 <= j < |routes| :: !Both(Listening(port), p)(routes[j]);
    }
  }

  /** For every list, port and name the scan answers with the earliest of the best-fitting
      routes, and with none exactly if none fits. */
  lemma FlatScanExactly(routes: seq<TCPRoute>, port: int, sni: string) returns (i: nat)
    ensures var f := FlatScan(routes, port, sni);
            && (f.None? <==> forall j | 0 <= j < |routes| && routes[j].port == port :: Fit(routes[j], sni) < 0)
            && (f.Some? ==> Earliest(routes, port, sni, i) && f == Some(routes[i]))
  {
    hide First, Exact, Wildcard, Default, Fit;
    forall r
      ensures Fit(r, sni) == if Exact(sni)(r) then 2 else if Wildcard(sni)(r) then 1 else if Default()(r) then 0 else -1
    {
      FitExactly(r, sni);
    }
    var a := FirstOnPort(routes, port, Exact(sni));
    var b := FirstOnPort(routes, port, Wildcard(sni));
    var c := FirstOnPort(routes, port, Default());
    i := if First(routes, Both(Listening(port), Exact(sni))).Some? then a
         else if First(routes, Both(Listening(port), Wildcard(sni))).Some? then b else c;
  }

  /** Which route that is, is determined. */
  lemma EarliestIsUnique(routes: seq<TCPRoute>, port: int, sni: string, i: nat, j: nat)
    requires Earliest(routes, port, sni, i) && Earliest(routes, port, sni, j)
    ensures i == j
  {
    hide Fit;
  }

  /** Looking a port up in the index and matching there is the plain scan of the list. */
  lemma IndexRefinesScan(byPort: map<int, PortRoutes>, routes: seq<TCPRoute>, port: int, sni: string)
    requires Indexes(byPort, routes)
    ensures port in byPort ==> byPort[port].Valid() && Scan(byPort[port].routes, sni) == FlatScan(routes, port, sni)
    ensures port !in byPort ==> FlatScan(routes, port, sni) == None
  {
    FirstKeep(routes, Listening(port), Exact(sni));
    FirstKeep(routes, Listening(port), Wildcard(sni));
    FirstKeep(routes, Listening(port), Default());
  }
}
