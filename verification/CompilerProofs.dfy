/** What the compiler guarantees: nothing is lost, keys are unique, winners dominate,
    and exactly when the order of the input cannot show. */
module CompilerProofs {
  import opened Prelude
  import opened Strings
  import opened Types
  import opened Compiler

  // ----- Who wins a key -------------------------------------------------------

  /** In a sorted list no claimant of a key sorts in front of the one that gets it. */
  lemma WinnerIsBest(s: seq<RouteDefinition>, kind: Kind, k: string)
    requires Sorted(s) && WinnerFor(s, kind, k).Some?
    ensures var w := WinnerFor(s, kind, k).value;
            && w in s && Claiming(kind, k)(w)
            && forall t | t in s && Claiming(kind, k)(t) :: !Before(t, w)
  {
    var i := FirstIn(s, Claiming(kind, k));
    forall t | t in s && Claiming(kind, k)(t)
      ensures !Before(t, s[i])
    {
      var j :| 0 <= j < |s| && s[j] == t;
      TiedMeansUnordered(s[i], s[i]);
    }
  }

  lemma WinnerSnoc(s: seq<RouteDefinition>, kind: Kind, k: string)
    requires s != []
    ensures var n := |s| - 1;
            WinnerFor(s, kind, k) ==
            if WinnerFor(s[..n], kind, k).Some? then WinnerFor(s[..n], kind, k)
            else if Claiming(kind, k)(s[n]) then Some(s[n]) else None
  {
    FirstSnoc(s, Claiming(kind, k));
  }

  /** A route is listed among the winners once, if it is the one that got its key. */
  lemma {:induction false} WinnersCount(s: seq<RouteDefinition>, kind: Kind, r: RouteDefinition)
    ensures multiset(Winners(s, kind))[r] ==
            if InKind(kind, r) && WinnerFor(s, kind, Key(kind, r)) == Some(r) then 1 else 0
  {
    if s != [] {
      WinnersCount(s[..|s| - 1], kind, r);
      WinnerSnoc(s, kind, Key(kind, r));
      hide Key, InKind, WinnerFor;
    }
  }

  /** Every other occurrence of a claimant is a conflict with the winner of its key. */
  lemma {:induction false} ConflictsCount(s: seq<RouteDefinition>, kind: Kind, c: Conflict)
    ensures var n := multiset(Conflicts(s, kind))[c];
            if c.kind == kind && InKind(kind, c.loser) && WinnerFor(s, kind, Key(kind, c.loser)) == Some(c.winner)
            then n + (if c.loser == c.winner then 1 else 0) == multiset(s)[c.loser] else n == 0
  {
    if s != [] {
      var n := |s| - 1;
      ConflictsCount(s[..n], kind, c);
      WinnerSnoc(s, kind, Key(kind, c.loser));
      SnocMultiset(s);
      if WinnerFor(s[..n], kind, Key(kind, c.loser)).None? {
        NoClaimantNoCopy(s[..n], kind, c.loser);
      }
      hide Key, InKind, WinnerFor;
    }
  }

  lemma NoClaimantNoCopy(s: seq<RouteDefinition>, kind: Kind, r: RouteDefinition)
    requires InKind(kind, r) ==> WinnerFor(s, kind, Key(kind, r)).None?
    ensures InKind(kind, r) ==> multiset(s)[r] == 0
  {
    if InKind(kind, r) {
      assert forall i | 0 <= i < |s| :: s[i] == r ==> Claiming(kind, Key(kind, r))(s[i]);
    }
  }

  // ----- Order independence ---------------------------------------------------

  /** Two different claimants of one key, tied with each other, with none in front. */
  ghost predicate TopTie(routes: multiset<RouteDefinition>, kind: Kind, r: RouteDefinition, q: RouteDefinition) {
    && r in routes && q in routes && r != q && Tied(r, q)
    && InKind(kind, r) && InKind(kind, q) && Key(kind, r) == Key(kind, q)
    && forall t | t in routes && Claiming(kind, Key(kind, r))(t) :: !Before(t, r)
  }

  ghost predicate Decided(routes: multiset<RouteDefinition>) {
    forall kind, r, q :: !TopTie(routes, kind, r, q)
  }

  /** The same compiled routes, conflicts and warnings, up to their order. */
  ghost predicate SameOutcome(a: CompiledConfig, b: CompiledConfig) {
    && multiset(a.httpRoutes) == multiset(b.httpRoutes) && multiset(a.tcpRoutes) == multiset(b.tcpRoutes)
    && multiset(a.conflicts) == multiset(b.conflicts) && multiset(a.warnings) == multiset(b.warnings)
  }

  /** `t` is another outcome of sorting the routes of `s`. */
  ghost predicate Reordering(s: seq<RouteDefinition>, t: seq<RouteDefinition>) {
    Sorted(s) && Sorted(t) && multiset(s) == multiset(t)
  }

  lemma SameMembers(s: seq<RouteDefinition>, t: seq<RouteDefinition>)
    requires multiset(s) == multiset(t)
    ensures forall r :: r in s <==> r in t
  {
    assert forall r :: r in s <==> r in multiset(s);
    assert forall r :: r in t <==> r in multiset(t);
  }

  lemma NoClaimants(s: seq<RouteDefinition>, t: seq<RouteDefinition>, kind: Kind, k: string)
    requires (forall r :: r in s <==> r in t) && WinnerFor(s, kind, k).None?
    ensures WinnerFor(t, kind, k).None?
  {
    assert forall i | 0 <= i < |t| :: t[i] in s;
  }

  lemma SameWinner(s: seq<RouteDefinition>, t: seq<RouteDefinition>, kind: Kind, k: string)
    requires Reordering(s, t) && Decided(multiset(s))
    ensures WinnerFor(s, kind, k) == WinnerFor(t, kind, k)
  {
    SameMembers(s, t);
    if WinnerFor(s, kind, k).None? {
      NoClaimants(s, t, kind, k);
    } else if WinnerFor(t, kind, k).None? {
      NoClaimants(t, s, kind, k);
    } else {
      WinnerIsBest(s, kind, k);
      WinnerIsBest(t, kind, k);
      var r, q := WinnerFor(s, kind, k).value, WinnerFor(t, kind, k).value;
      TiedMeansUnordered(r, q);
      assert !TopTie(multiset(s), kind, r, q);
    }
  }

  lemma SameClaims(s: seq<RouteDefinition>, t: seq<RouteDefinition>, kind: Kind)
    requires Reordering(s, t) && Decided(multiset(s))
    ensures multiset(Winners(s, kind)) == multiset(Winners(t, kind))
    ensures multiset(Conflicts(s, kind)) == multiset(Conflicts(t, kind))
  {
    hide Winners, Conflicts, Sorted, Decided, WinnerFor, Key, InKind;
    var a, b := multiset(Winners(s, kind)), multiset(Winners(t, kind));
    forall r | r in a + b
      ensures a[r] == b[r]
    {
      WinnersCount(s, kind, r);
      WinnersCount(t, kind, r);
      SameWinner(s, t, kind, Key(kind, r));
    }
    var c, d := multiset(Conflicts(s, kind)), multiset(Conflicts(t, kind));
    forall x | x in c + d
      ensures c[x] == d[x]
    {
      ConflictsCount(s, kind, x);
      ConflictsCount(t, kind, x);
      SameWinner(s, t, kind, Key(kind, x.loser));
    }
  }

  /** Whatever order the routes arrive in and however the sort breaks ties, the outcome
      is the same, provided no two different claimants tie at the top of one key. */
  lemma OrderIndependent(parse: StatusParser, s: seq<RouteDefinition>, t: seq<RouteDefinition>)
    requires Reordering(s, t) && Decided(multiset(s))
    ensures SameOutcome(Compiled(parse, s), Compiled(parse, t))
  {
    hide Winners, Conflicts, Keep, Image, Sorted, Decided;
    forall kind
      ensures multiset(Keep(Winners(s, kind), ServedIn(kind))) == multiset(Keep(Winners(t, kind), ServedIn(kind)))
      ensures multiset(Conflicts(s, kind)) == multiset(Conflicts(t, kind))
    {
      SameClaims(s, t, kind);
      KeepMultiset(Winners(s, kind), Winners(t, kind), ServedIn(kind));
    }
    ImageMultiset(Keep(Winners(s, Http), ServedIn(Http)), Keep(Winners(t, Http), ServedIn(Http)), HTTPFrom(parse));
    ImageMultiset(Keep(Winners(s, Tcp), ServedIn(Tcp)), Keep(Winners(t, Tcp), ServedIn(Tcp)), ToTCP);
    KeepMultiset(s, t, Unknown);
    ImageMultiset(Keep(s, Unknown), Keep(t, Unknown), ToWarning);
  }

  /** Exchanging two tied entries keeps a list sorted. */
  lemma SwapTied(s: seq<RouteDefinition>, i: nat, j: nat) returns (t: seq<RouteDefinition>)
    requires Sorted(s) && i < j < |s| && Tied(s[i], s[j])
    ensures t == s[i := s[j]][j := s[i]] && Reordering(s, t)
  {
    t := s[i := s[j]][j := s[i]];
    forall a, b | 0 <= a < b < |s|
      ensures !Before(t[b], t[a])
    {
      assert !Before(s[b], s[a]) && Tied(t[a], s[a]) && Tied(t[b], s[b]);
    }
  }

  /** A tie at the top shows: another outcome of the sort has other conflicts. */
  lemma TieShows(s: seq<RouteDefinition>, kind: Kind, r: RouteDefinition, q: RouteDefinition)
    returns (t: seq<RouteDefinition>, c: Conflict)
    requires Sorted(s) && TopTie(multiset(s), kind, r, q)
    ensures Reordering(s, t) && c.kind == kind
    ensures multiset(Conflicts(s, kind))[c] > 0 && multiset(Conflicts(t, kind))[c] == 0
  {
    hide Key, InKind, Less, First;
    var k := Key(kind, r);
    var i0 :| 0 <= i0 < |s| && s[i0] == r;
    assert Claiming(kind, k)(s[i0]);
    var i := FirstIn(s, Claiming(kind, k));
    WinnerIsBest(s, kind, k);
    var w := s[i];
    var x := if w == r then q else r;
    assert !Before(w, r) && !Before(r, w);
    TiedMeansUnordered(w, r);
    var j :| 0 <= j < |s| && s[j] == x;
    t := SwapTied(s, i, j);
    SwappedWinner(s, t, kind, k, i, j);
    c := Conflict(kind, w, x);
    ConflictsCount(s, kind, c);
    ConflictsCount(t, kind, c);
  }

  lemma SwappedWinner(s: seq<RouteDefinition>, t: seq<RouteDefinition>, kind: Kind, k: string, i: nat, j: nat)
    requires i < j < |s| && t == s[i := s[j]][j := s[i]]
    requires forall a | 0 <= a < i :: !Claiming(kind, k)(s[a])
    requires Claiming(kind, k)(s[j])
    ensures WinnerFor(t, kind, k) == Some(s[j])
  {
    assert Claiming(kind, k)(t[i]);
    var m := FirstIn(t, Claiming(kind, k));
    assert forall a | 0 <= a < i :: t[a] == s[a];
  }

  /** Exactly when compilation cannot depend on the order of its input. */
  lemma OrderIndependentExactly(parse: StatusParser, s: seq<RouteDefinition>)
    requires Sorted(s)
    ensures (forall t :: Reordering(s, t) ==> SameOutcome(Compiled(parse, s), Compiled(parse, t)))
            <==> Decided(multiset(s))
  {
    if Decided(multiset(s)) {
      forall t | Reordering(s, t)
        ensures SameOutcome(Compiled(parse, s), Compiled(parse, t))
      {
        OrderIndependent(parse, s, t);
      }
    } else {
      var kind, r, q :| TopTie(multiset(s), kind, r, q);
      var t, c := TieShows(s, kind, r, q);
      forall other: Kind | other != kind
        ensures multiset(Conflicts(s, other))[c] == multiset(Conflicts(t, other))[c] == 0
      {
        ConflictsCount(s, other, c);
        ConflictsCount(t, other, c);
      }
      assert multiset(Compiled(parse, s).conflicts)[c] != multiset(Compiled(parse, t).conflicts)[c];
      assert !SameOutcome(Compiled(parse, s), Compiled(parse, t));
    }
  }

  // ----- Conservation, uniqueness, dominance ----------------------------------

  function Loser(c: Conflict): RouteDefinition { c.loser }

  lemma {:induction false} ClaimantCount(s: seq<RouteDefinition>, kind: Kind, r: RouteDefinition)
    ensures multiset(Winners(s, kind))[r] + multiset(Image(Conflicts(s, kind), Loser))[r] ==
            if InKind(kind, r) then multiset(s)[r] else 0
  {
    if s != [] {
      var n := |s| - 1;
      ClaimantCount(s[..n], kind, r);
      SnocMultiset(s);
      var cs := Conflicts(s[..n], kind);
      if InKind(kind, s[n]) && WinnerFor(s[..n], kind, Key(kind, s[n])).Some? {
        ImageSnoc(cs, Conflict(kind, WinnerFor(s[..n], kind, Key(kind, s[n])).value, s[n]), Loser);
      } else {
        assert cs + [] == cs;
      }
      hide Key, InKind, WinnerFor, Image;
    }
  }

  /** What became of the routes of one kind: the parts are the sources of the compiled
      routes, the first claimants without a healthy upstream, and the losers. */
  ghost function Fates(s: seq<RouteDefinition>, kind: Kind): multiset<RouteDefinition> {
    multiset(Keep(Winners(s, kind), ServedIn(kind))) + multiset(Keep(Winners(s, kind), UnservedIn(kind)))
    + multiset(Image(Conflicts(s, kind), Loser))
  }

  lemma FateCount(s: seq<RouteDefinition>, kind: Kind, r: RouteDefinition)
    ensures Fates(s, kind)[r] == if InKind(kind, r) then multiset(s)[r] else 0
  {
    hide Winners, Conflicts, Keep, Image, Key, InKind, Served;
    KeepCount(Winners(s, kind), ServedIn(kind), r);
    KeepCount(Winners(s, kind), UnservedIn(kind), r);
    ClaimantCount(s, kind, r);
  }

  /** Conservation: every route that went in is warned about, compiled, idle or beaten,
      and is so exactly as often as it was given. */
  lemma Conservation(s: seq<RouteDefinition>)
    ensures multiset(s) == multiset(Keep(s, Unknown)) + Fates(s, Http) + Fates(s, Tcp)
  {
    hide Keep, Fates;
    var all := multiset(Keep(s, Unknown)) + Fates(s, Http) + Fates(s, Tcp);
    forall r | r in multiset(s) + all
      ensures multiset(s)[r] == all[r]
    {
      KeepCount(s, Unknown, r);
      FateCount(s, Http, r);
      FateCount(s, Tcp, r);
    }
  }

  /** The counts a reader of the compiled configuration sees. */
  lemma ConservationOfCounts(parse: StatusParser, s: seq<RouteDefinition>)
    ensures var c := Compiled(parse, s);
            |s| == |c.warnings| + |c.httpRoutes| + |c.tcpRoutes| + |c.conflicts|
                   + |Keep(Winners(s, Http), UnservedIn(Http))| + |Keep(Winners(s, Tcp), UnservedIn(Tcp))|
  {
    hide Winners, Conflicts, Keep;
    Conservation(s);
    assert |multiset(s)| == |s|;
  }

  ghost predicate DistinctKeys(s: seq<RouteDefinition>, kind: Kind) {
    forall i, j | 0 <= i < j < |s| :: Key(kind, s[i]) != Key(kind, s[j])
  }

  lemma WinnersDistinct(s: seq<RouteDefinition>, kind: Kind)
    ensures DistinctKeys(Winners(s, kind), kind)
  {
    hide Key, InKind, Winners, WinnerFor;
    var ws := Winners(s, kind);
    forall i, j | 0 <= i < j < |ws| && Key(kind, ws[i]) == Key(kind, ws[j])
      ensures false
    {
      assert ws[i] in multiset(ws) && ws[j] in multiset(ws);
      WinnersCount(s, kind, ws[i]);
      WinnersCount(s, kind, ws[j]);
      TwiceCount(ws, i, j);
    }
  }

  lemma {:induction false} KeepDistinct(s: seq<RouteDefinition>, kind: Kind, p: RouteDefinition -> bool)
    requires DistinctKeys(s, kind)
    ensures DistinctKeys(Keep(s, p), kind) && forall r | r in Keep(s, p) :: r in s
  {
    hide Key;
    if s != [] {
      var n := |s| - 1;
      KeepDistinct(s[..n], kind, p);
      assert forall r | r in s[..n] :: r in s;
      assert forall r | r in s[..n] :: Key(kind, r) != Key(kind, s[n]);
    }
  }

  /** No two compiled routes carry one key. */
  lemma CompiledKeysDistinct(parse: StatusParser, s: seq<RouteDefinition>)
    ensures var rs := Compiled(parse, s).httpRoutes;
            forall i, j | 0 <= i < j < |rs| :: HttpRouteKey(rs[i].host, rs[i].path) != HttpRouteKey(rs[j].host, rs[j].path)
    ensures var rs := Compiled(parse, s).tcpRoutes;
            forall i, j | 0 <= i < j < |rs| :: TcpRouteKey(rs[i].port, rs[i].sni) != TcpRouteKey(rs[j].port, rs[j].sni)
  {
    hide Winners, Keep, HttpRouteKey, TcpRouteKey, Healthy;
    forall kind
      ensures DistinctKeys(Keep(Winners(s, kind), ServedIn(kind)), kind)
    {
      WinnersDistinct(s, kind);
      KeepDistinct(Winners(s, kind), kind, ServedIn(kind));
    }
    var hs, ts := Keep(Winners(s, Http), ServedIn(Http)), Keep(Winners(s, Tcp), ServedIn(Tcp));
    var c := Compiled(parse, s);
    assert forall i | 0 <= i < |hs| :: Key(Http, hs[i]) == HttpRouteKey(c.httpRoutes[i].host, c.httpRoutes[i].path);
    assert forall i | 0 <= i < |ts| :: Key(Tcp, ts[i]) == TcpRouteKey(c.tcpRoutes[i].port, c.tcpRoutes[i].sni);
  }

  /** The winner of a conflict has the higher priority or, on equal priority, the name
      that comes first; both claim the same key. */
  lemma Dominance(s: seq<RouteDefinition>, kind: Kind, c: Conflict)
    requires Sorted(s) && c in Conflicts(s, kind)
    ensures c.winner in s && c.loser in s && c.kind == kind && Key(kind, c.winner) == Key(kind, c.loser)
    ensures c.winner.priority > c.loser.priority
            || (c.winner.priority == c.loser.priority
                && (Less(c.winner.serviceName, c.loser.serviceName) || c.winner.serviceName == c.loser.serviceName))
  {
    hide Key, InKind, Conflicts, First;
    assert c in multiset(Conflicts(s, kind));
    ConflictsCount(s, kind, c);
    WinnerIsBest(s, kind, Key(kind, c.loser));
    LessTotal(c.winner.serviceName, c.loser.serviceName);
  }

  /** A key is served exactly if its first claimant can be: a later healthy claimant
      never takes over from an idle one. */
  lemma KeyServed(s: seq<RouteDefinition>, kind: Kind, k: string)
    ensures (exists r :: r in Keep(Winners(s, kind), ServedIn(kind)) && Key(kind, r) == k)
            <==> WinnerFor(s, kind, k).Some? && Served(kind, WinnerFor(s, kind, k).value)
  {
    hide Winners, Key, InKind, First, Served;
    var kept := Keep(Winners(s, kind), ServedIn(kind));
    forall r | r in kept && Key(kind, r) == k
      ensures WinnerFor(s, kind, k) == Some(r) && Served(kind, r)
    {
      assert r in multiset(kept);
      KeepCount(Winners(s, kind), ServedIn(kind), r);
      WinnersCount(s, kind, r);
    }
    if WinnerFor(s, kind, k).Some? && Served(kind, WinnerFor(s, kind, k).value) {
      var w := WinnerFor(s, kind, k).value;
      assert Claiming(kind, k)(w);
      WinnersCount(s, kind, w);
      KeepCount(Winners(s, kind), ServedIn(kind), w);
      assert w in multiset(kept);
    }
  }
}
