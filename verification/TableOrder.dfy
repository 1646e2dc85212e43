/** Exactly when the answers of the two lookup tables do not depend on the order in which
    the compiler meets the routes. */
module TableOrder {
  import opened Prelude
  import opened Strings
  import opened Types
  import opened HostMatch
  import opened Compiler
  import opened CompilerProofs
  import opened AnswerOrder
  import opened RouteTable
  import opened TcpTable
  import Keys

  // ----- HTTP ---------------------------------------------------------------------

  function HttpLookup(parse: StatusParser, q: Request): Lookup {
    Lookup(Http, (r: RouteDefinition) => Matches(ToHTTP(parse, r), q),
           (r: RouteDefinition) => Rank(if RouteHasPort(r.host) then 1 else 0, PathLength(ToHTTP(parse, r))))
  }

  lemma BestIsAnswer(parse: StatusParser, q: Request, ws: seq<RouteDefinition>, i: nat)
    ensures IsBest(Image(ws, HTTPFrom(parse)), q, i) <==> HttpLookup(parse, q).IsAnswer(ws, i)
  {
    hide Matches, RouteHasPort, PathLength, Healthy;
    var l, rs := HttpLookup(parse, q), Image(ws, HTTPFrom(parse));
    assert forall a, b :: l.Over(a, b) <==> Outranks(ToHTTP(parse, a), ToHTTP(parse, b));
    assert forall j | 0 <= j < |ws| :: rs[j] == ToHTTP(parse, ws[j]);
    hide Outranks, Lookup.Over, ToHTTP;
  }

  ghost predicate SomeMatch(routes: seq<HTTPRoute>, q: Request) {
    exists i | 0 <= i < |routes| :: Matches(routes[i], q)
  }

  /** `Match` gives the same route, or none, on both tables. */
  ghost predicate SameMatch(a: seq<HTTPRoute>, b: seq<HTTPRoute>, q: Request) {
    && (SomeMatch(a, q) <==> SomeMatch(b, q))
    && forall i: nat, j: nat | IsBest(a, q, i) && IsBest(b, q, j) :: a[i] == b[j]
  }

  lemma SameMatchIsSameAnswer(parse: StatusParser, q: Request, a: seq<RouteDefinition>, b: seq<RouteDefinition>)
    ensures SameMatch(Image(a, HTTPFrom(parse)), Image(b, HTTPFrom(parse)), q)
            <==> SameAnswer(HttpLookup(parse, q), a, b, HTTPFrom(parse))
  {
    var l, f := HttpLookup(parse, q), HTTPFrom(parse);
    forall i: nat
      ensures IsBest(Image(a, f), q, i) <==> l.IsAnswer(a, i)
      ensures IsBest(Image(b, f), q, i) <==> l.IsAnswer(b, i)
    {
      BestIsAnswer(parse, q, a, i);
      BestIsAnswer(parse, q, b, i);
    }
    assert forall i: nat | l.IsAnswer(a, i) :: i < |a| && Image(a, f)[i] == f(a[i]);
    assert forall i: nat | l.IsAnswer(b, i) :: i < |b| && Image(b, f)[i] == f(b[i]);
    hide HTTPFrom, HttpLookup, SomeMatch, Lookup.AnyMatch, Lookup.IsAnswer, IsBest;
  }

  /** For every request: whatever order the routes come in and however the sort leaves
      ties, `Match` on the compiled table gives the same route, or none, exactly if the
      request is settled. */
  lemma MatchOrderExactly(parse: StatusParser, s: seq<RouteDefinition>, q: Request)
    requires Sorted(s)
    ensures (forall t | Reordering(s, t) :: SameMatch(Compiled(parse, s).httpRoutes, Compiled(parse, t).httpRoutes, q))
            <==> Settled(multiset(s), HttpLookup(parse, q), HTTPFrom(parse))
  {
    hide SameMatch, SameAnswer, Settled, Sorted, HTTPFrom, Image, Keep, Winners;
    var l := HttpLookup(parse, q);
    forall t
      ensures SameMatch(Compiled(parse, s).httpRoutes, Compiled(parse, t).httpRoutes, q)
              <==> SameAnswer(l, Kept(s, Http), Kept(t, Http), HTTPFrom(parse))
    {
      SameMatchIsSameAnswer(parse, q, Kept(s, Http), Kept(t, Http));
    }
    SettledExactly(s, l, HTTPFrom(parse));
  }

  // ----- TCP -----------------------------------------------------------------------

  /** 2 for an exact name, 1 for a wildcard, 0 for a route without a name; -1 if it does
      not match. */
  function ScanRank(sni: string, r: TCPRoute): int {
    if Exact(sni)(r) then 2 else if Wildcard(sni)(r) then 1 else if Default()(r) then 0 else -1
  }

  function TcpLookup(port: int, sni: string): Lookup {
    Lookup(Tcp, (r: RouteDefinition) => r.port == port && ScanRank(sni, ToTCP(r)) >= 0,
           (r: RouteDefinition) => Rank(ScanRank(sni, ToTCP(r)), 0))
  }

  /** The scan's three searches are one search by rank. */
  lemma ScanIsRanked(rs: seq<TCPRoute>, port: int, sni: string, i: nat)
    requires i < |rs| && rs[i].port == port && ScanRank(sni, rs[i]) >= 0
    requires forall j | 0 <= j < |rs| && rs[j].port == port && ScanRank(sni, rs[j]) >= 0 ::
               ScanRank(sni, rs[j]) <= ScanRank(sni, rs[i]) && (j < i ==> ScanRank(sni, rs[j]) < ScanRank(sni, rs[i]))
    ensures FlatScan(rs, port, sni) == Some(rs[i])
  {
    hide First, HasPrefix, MatchHost, Lower;
    if Exact(sni)(rs[i]) {
      FirstAt(rs, Both(Listening(port), Exact(sni)), i);
    } else if Wildcard(sni)(rs[i]) {
      assert forall j | 0 <= j < |rs| :: !Both(Listening(port), Exact(sni))(rs[j]);
      FirstAt(rs, Both(Listening(port), Wildcard(sni)), i);
    } else {
      assert forall j | 0 <= j < |rs| :: !Both(Listening(port), Exact(sni))(rs[j]);
      assert forall j | 0 <= j < |rs| :: !Both(Listening(port), Wildcard(sni))(rs[j]);
      FirstAt(rs, Both(Listening(port), Default()), i);
    }
  }

  lemma ScanMisses(rs: seq<TCPRoute>, port: int, sni: string)
    requires forall j | 0 <= j < |rs| :: !(rs[j].port == port && ScanRank(sni, rs[j]) >= 0)
    ensures FlatScan(rs, port, sni) == None
  {
    hide First, HasPrefix, MatchHost, Lower;
    assert forall j | 0 <= j < |rs| :: !Both(Listening(port), Exact(sni))(rs[j]);
    assert forall j | 0 <= j < |rs| :: !Both(Listening(port), Wildcard(sni))(rs[j]);
    assert forall j | 0 <= j < |rs| :: !Both(Listening(port), Default())(rs[j]);
  }

  lemma ScanIsAnswer(port: int, sni: string, ws: seq<RouteDefinition>)
    ensures var l := TcpLookup(port, sni);
            var scan := FlatScan(Image(ws, ToTCP), port, sni);
            && (scan.Some? <==> l.AnyMatch(ws))
            && forall i: nat | l.IsAnswer(ws, i) :: scan == Some(ToTCP(ws[i]))
  {
    hide FlatScan, ScanRank, Healthy;
    var l, rs := TcpLookup(port, sni), Image(ws, ToTCP);
    assert forall j | 0 <= j < |ws| :: rs[j] == ToTCP(ws[j]) && rs[j].port == ws[j].port;
    forall i: nat | l.IsAnswer(ws, i)
      ensures FlatScan(rs, port, sni) == Some(ToTCP(ws[i]))
    {
      ScanIsRanked(rs, port, sni, i);
    }
    if l.AnyMatch(ws) {
      var i := AnswerExists(l, ws);
    } else {
      ScanMisses(rs, port, sni);
    }
  }

  lemma SameScanIsSameAnswer(port: int, sni: string, a: seq<RouteDefinition>, b: seq<RouteDefinition>)
    ensures FlatScan(Image(a, ToTCP), port, sni) == FlatScan(Image(b, ToTCP), port, sni)
            <==> SameAnswer(TcpLookup(port, sni), a, b, ToTCP)
  {
    hide FlatScan, ToTCP, Image, Lookup.Over, TcpLookup;
    var l := TcpLookup(port, sni);
    ScanIsAnswer(port, sni, a);
    ScanIsAnswer(port, sni, b);
    if l.AnyMatch(a) { var i := AnswerExists(l, a); }
    if l.AnyMatch(b) { var j := AnswerExists(l, b); }
  }

  /** For every port and server name: the scan of the compiled list, and so the index, gives
      the same route, or none, exactly if the name is settled. */
  lemma ScanOrderExactly(parse: StatusParser, s: seq<RouteDefinition>, port: int, sni: string)
    requires Sorted(s)
    ensures (forall t | Reordering(s, t) ::
               FlatScan(Compiled(parse, s).tcpRoutes, port, sni) == FlatScan(Compiled(parse, t).tcpRoutes, port, sni))
            <==> Settled(multiset(s), TcpLookup(port, sni), ToTCP)
  {
    var l := TcpLookup(port, sni);
    assert l.kind == Tcp;
    hide FlatScan, SameAnswer, Settled, Sorted, ToTCP, Image, Keep, Winners, TcpLookup;
    forall t
      ensures FlatScan(Compiled(parse, s).tcpRoutes, port, sni) == FlatScan(Compiled(parse, t).tcpRoutes, port, sni)
              <==> SameAnswer(l, Kept(s, Tcp), Kept(t, Tcp), ToTCP)
    {
      SameScanIsSameAnswer(port, sni, Kept(s, Tcp), Kept(t, Tcp));
    }
    SettledExactly(s, l, ToTCP);
  }

  // ----- An input on which the order shows -----------------------------------------------

  /** An exact host and a wildcard of one service, with equal priority and path. */
  ghost predicate ExactAndWild(e: RouteDefinition, w: RouteDefinition) {
    && e.host == "a.b" && w.host == "*.b" && e.path == w.path == "/"
    && e.IsHTTP() && w.IsHTTP() && Tied(e, w) && Served(Http, e) && Served(Http, w)
  }

  lemma HostsMatch()
    ensures ToRequest("a.b", "/") == Request("a.b", "a.b", "/")
    ensures MatchHost("a.b", "a.b") && MatchHost("*.b", "a.b")
    ensures !RouteHasPort("a.b") && !RouteHasPort("*.b")
  {
    assert Lower("a.b") == "a.b" && Lower("*.b") == "*.b";
    assert "*.b"[1..] == ".b" && "a.b"[1..] == ".b" && "*.b"[2..] == "b";
  }

  lemma BothMatch(parse: StatusParser, e: RouteDefinition, w: RouteDefinition)
    requires ExactAndWild(e, w)
    ensures var l := HttpLookup(parse, ToRequest("a.b", "/"));
            l.Hit(e) && l.Hit(w) && l.rank(e) == l.rank(w) == Rank(0, 0)
  {
    hide Served, Healthy, ToRequest, MatchHost, RouteHasPort;
    HostsMatch();
  }

  lemma KeysDiffer(e: RouteDefinition, w: RouteDefinition)
    requires ExactAndWild(e, w)
    ensures Key(Http, e) != Key(Http, w) && Tied(e, w) && e.host != w.host
    ensures forall kind :: (InKind(kind, e) <==> kind == Http) && (InKind(kind, w) <==> kind == Http)
  {
    hide Served;
    assert e.host[0] != w.host[0];
    assert Key(Http, e)[0] == 'a' && Key(Http, w)[0] == '*';
  }

  /** Two tied routes of one kind with different keys, ranked alike: both contend. */
  lemma PairContends(m: multiset<RouteDefinition>, l: Lookup, a: RouteDefinition, b: RouteDefinition)
    requires m == multiset{a, b} && Tied(a, b) && Key(l.kind, a) != Key(l.kind, b)
    requires forall kind :: (InKind(kind, a) <==> kind == l.kind) && (InKind(kind, b) <==> kind == l.kind)
    requires l.Hit(a) && l.Hit(b) && l.rank(a) == l.rank(b)
    ensures Decided(m) && Contends(m, l, a) && Contends(m, l, b)
  {
    hide Key, InKind, Lookup.Hit;
    TiedMeansUnordered(a, b);
    TiedMeansUnordered(a, a);
    TiedMeansUnordered(b, b);
    forall kind, r, q
      ensures !TopTie(m, kind, r, q)
    {
      if r in m && q in m && kind == l.kind { assert r != q ==> Key(kind, r) != Key(kind, q); }
    }
  }

  /** So the lookup is not settled. */
  lemma PairNotSettled<T(!new)>(m: multiset<RouteDefinition>, l: Lookup, out: RouteDefinition -> T,
                                a: RouteDefinition, b: RouteDefinition)
    requires m == multiset{a, b} && Tied(a, b) && Key(l.kind, a) != Key(l.kind, b) && out(a) != out(b)
    requires forall kind :: (InKind(kind, a) <==> kind == l.kind) && (InKind(kind, b) <==> kind == l.kind)
    requires l.Hit(a) && l.Hit(b) && l.rank(a) == l.rank(b)
    ensures Decided(m) && !Settled(m, l, out)
  {
    hide *;
    PairContends(m, l, a, b);
    DecidedSettledExactly(m, l, out);
  }

  lemma RoutesDiffer(parse: StatusParser, e: RouteDefinition, w: RouteDefinition)
    requires e.host != w.host
    ensures HTTPFrom(parse)(e) != HTTPFrom(parse)(w)
  {
    hide ToHTTP;
    KeepsHost(parse, e);
    KeepsHost(parse, w);
  }

  lemma KeepsHost(parse: StatusParser, r: RouteDefinition)
    ensures ToHTTP(parse, r).host == r.host
  {
  }

  /** Although no two claimants tie at the top of a key, so that the compiled routes are
      the same up to order, the order decides which of them `Match` answers with. */
  lemma OrderCanShow(parse: StatusParser, e: RouteDefinition, w: RouteDefinition)
    requires ExactAndWild(e, w)
    ensures Decided(multiset{e, w})
    ensures exists t | Reordering([e, w], t) ::
              !SameMatch(Compiled(parse, [e, w]).httpRoutes, Compiled(parse, t).httpRoutes, ToRequest("a.b", "/"))
  {
    var l, m := HttpLookup(parse, ToRequest("a.b", "/")), multiset{e, w};
    assert l.kind == Http;
    hide *;
    BothMatch(parse, e, w);
    KeysDiffer(e, w);
    RoutesDiffer(parse, e, w);
    PairNotSettled(m, l, HTTPFrom(parse), e, w);
    TwoSorted(e, w);
    assert multiset([e, w]) == m;
    MatchOrderExactly(parse, [e, w], ToRequest("a.b", "/"));
  }

  lemma TwoSorted(e: RouteDefinition, w: RouteDefinition)
    requires Tied(e, w)
    ensures Sorted([e, w])
  {
    TiedMeansUnordered(e, w);
  }

  // ----- And one for TCP ---------------------------------------------------------------

  /** Two wildcards of one service on one port, one below the other. */
  ghost predicate NestedWilds(a: RouteDefinition, b: RouteDefinition, port: int) {
    && a.host == "*.a" && b.host == "*.b.a" && a.port == b.port == port
    && a.IsTCP() && b.IsTCP() && Tied(a, b) && Served(Tcp, a) && Served(Tcp, b)
  }

  lemma WildsMatch()
    ensures MatchHost("*.a", Lower("x.b.a")) && MatchHost("*.b.a", Lower("x.b.a"))
    ensures Lower("*.a") != Lower("x.b.a") && Lower("*.b.a") != Lower("x.b.a")
    ensures HasPrefix("*.a", "*.") && HasPrefix("*.b.a", "*.") && "*.a" != "*.b.a"
  {
    assert Lower("x.b.a") == "x.b.a" && Lower("*.a") == "*.a" && Lower("*.b.a") == "*.b.a";
    assert "*.a"[1..] == ".a" && "*.a"[2..] == "a" && "x.b.a"[3..] == ".a";
    assert "*.b.a"[1..] == ".b.a" && "*.b.a"[2..] == "b.a" && "x.b.a"[1..] == ".b.a";
    assert "x.b.a"[0] != "*.b.a"[0] && |"*.a"| != |"x.b.a"|;
  }

  lemma WildsTie(a: RouteDefinition, b: RouteDefinition, port: int)
    requires NestedWilds(a, b, port)
    ensures var l := TcpLookup(port, "x.b.a");
            l.kind == Tcp && l.Hit(a) && l.Hit(b) && l.rank(a) == l.rank(b)
    ensures forall kind :: (InKind(kind, a) <==> kind == Tcp) && (InKind(kind, b) <==> kind == Tcp)
    ensures Tied(a, b) && a.host != b.host
  {
    hide MatchHost, Lower, HasPrefix, Served, Healthy;
    WildsMatch();
  }

  lemma OtherHostOtherKey(a: RouteDefinition, b: RouteDefinition)
    requires a.host != b.host
    ensures Key(Tcp, a) != Key(Tcp, b) && ToTCP(a) != ToTCP(b)
  {
    hide TcpRouteKey, Healthy;
    if Key(Tcp, a) == Key(Tcp, b) { Keys.TcpKeyInjective(a.port, a.host, b.port, b.host); }
    assert ToTCP(a).sni != ToTCP(b).sni;
  }

  /** Here too no two claimants tie at the top of a key, and the order decides which of the
      two is scanned first for a name below both. */
  lemma TcpOrderCanShow(parse: StatusParser, a: RouteDefinition, b: RouteDefinition, port: int)
    requires NestedWilds(a, b, port)
    ensures Decided(multiset{a, b})
    ensures exists t | Reordering([a, b], t) ::
              FlatScan(Compiled(parse, [a, b]).tcpRoutes, port, "x.b.a") != FlatScan(Compiled(parse, t).tcpRoutes, port, "x.b.a")
  {
    hide *;
    var l, m := TcpLookup(port, "x.b.a"), multiset{a, b};
    WildsTie(a, b, port);
    OtherHostOtherKey(a, b);
    PairNotSettled(m, l, ToTCP, a, b);
    TwoSorted(a, b);
    assert multiset([a, b]) == m;
    ScanOrderExactly(parse, [a, b], port, "x.b.a");
  }
}
