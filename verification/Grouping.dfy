/** Phases 2 and 3 of `ParseServiceRoutes` (metadata.go): grouping the routes declared
    by the instances of a service by signature. */
module Grouping {
  import opened Prelude
  import opened Types

  /** A route declared by one instance, with that instance as its upstream. */
  datatype InstanceRoute = InstanceRoute(route: RouteDefinition, upstream: Upstream)

  /** The fields two declarations must share to become one route: all but the service
      name, the upstreams, the routing tag and the tag values. */
  function Signature(r: RouteDefinition): RouteDefinition {
    r.(serviceName := "", upstreams := [], via := "", tagValues := map[])
  }

  /** Declarations are grouped together exactly if they agree on these fields. */
  lemma SignatureExactly(a: RouteDefinition, b: RouteDefinition)
    ensures Signature(a) == Signature(b) <==>
            && a.protocol == b.protocol && a.host == b.host && a.path == b.path && a.port == b.port
            && a.priority == b.priority && a.weight == b.weight && a.stripPrefix == b.stripPrefix
            && a.enabled == b.enabled && a.redirectCode == b.redirectCode && a.redirectURL == b.redirectURL
            && a.redirectNoCache == b.redirectNoCache && a.noCacheStatusRaw == b.noCacheStatusRaw
            && a.hasNoCacheStatus == b.hasNoCacheStatus
  {
  }

  function Signed(sig: RouteDefinition): InstanceRoute -> bool { (ir: InstanceRoute) => Signature(ir.route) == sig }

  function UpstreamPart(): InstanceRoute -> Upstream { (ir: InstanceRoute) => ir.upstream }

  // ----- What grouping means ----------------------------------------------------

  /** Distinct signatures in the order they are first seen. */
  function SigOrder(all: seq<InstanceRoute>): seq<RouteDefinition> {
    if all == [] then [] else
      var n := |all| - 1;
      var sig := Signature(all[n].route);
      SigOrder(all[..n]) + if !Seen(all[..n], sig) then [sig] else []
  }

  predicate Seen(all: seq<InstanceRoute>, sig: RouteDefinition) { First(all, Signed(sig)).Some? }

  /** The upstreams declared under a signature, in order, one per declaration. */
  function UpstreamsFor(all: seq<InstanceRoute>, sig: RouteDefinition): seq<Upstream> {
    Image(Keep(all, Signed(sig)), UpstreamPart())
  }

  function RouteFor(all: seq<InstanceRoute>, sig: RouteDefinition): RouteDefinition
    requires Seen(all, sig)
  {
    First(all, Signed(sig)).value.route.(upstreams := UpstreamsFor(all, sig))
  }

  predicate IsEnabled(sig: RouteDefinition) { sig.enabled }

  // ----- The loops ----------------------------------------------------------------

  datatype Group = Group(route: RouteDefinition, upstreams: seq<Upstream>)

  /** The group map after a prefix of the declarations. */
  ghost predicate Groups(m: map<RouteDefinition, Group>, all: seq<InstanceRoute>) {
    forall sig :: GroupsAt(m, all, sig)
  }

  /** Adding one declaration to its group. */
  function AddTo(m: map<RouteDefinition, Group>, ir: InstanceRoute): map<RouteDefinition, Group> {
    var sig := Signature(ir.route);
    if sig in m then m[sig := Group(m[sig].route, m[sig].upstreams + [ir.upstream])]
    else m[sig := Group(ir.route, [ir.upstream])]
  }

  ghost predicate GroupsAt(m: map<RouteDefinition, Group>, all: seq<InstanceRoute>, sig: RouteDefinition) {
    if First(all, Signed(sig)).None? then sig !in m
    else sig in m && m[sig] == Group(First(all, Signed(sig)).value.route, UpstreamsFor(all, sig))
  }

  lemma GroupStepAt(m: map<RouteDefinition, Group>, all: seq<InstanceRoute>, ir: InstanceRoute, sig: RouteDefinition)
    requires GroupsAt(m, all, sig)
    ensures GroupsAt(AddTo(m, ir), all + [ir], sig)
  {
    hide Signature, First, UpstreamsFor;
    var after := all + [ir];
    assert after[..|all|] == all;
    FirstSnoc(after, Signed(sig));
    UpstreamsSnoc(all, ir, sig);
    if First(all, Signed(sig)).None? { NoneUpstreams(all, sig); }
  }

  lemma GroupStep(m: map<RouteDefinition, Group>, all: seq<InstanceRoute>, i: nat)
    requires i < |all| && Groups(m, all[..i])
    ensures var sig := Signature(all[i].route);
            && Groups(AddTo(m, all[i]), all[..i + 1])
            && SigOrder(all[..i + 1]) == (if sig in m then SigOrder(all[..i]) else SigOrder(all[..i]) + [sig])
  {
    hide Signature, First, UpstreamsFor, AddTo;
    assert all[..i + 1] == all[..i] + [all[i]] && all[..i + 1][..i] == all[..i];
    assert GroupsAt(m, all[..i], Signature(all[i].route));
    var next, after := AddTo(m, all[i]), all[..i + 1];
    forall sig
      ensures GroupsAt(next, after, sig)
    {
      GroupStepAt(m, all[..i], all[i], sig);
    }
  }

  lemma UpstreamsSnoc(all: seq<InstanceRoute>, ir: InstanceRoute, sig: RouteDefinition)
    ensures UpstreamsFor(all + [ir], sig) ==
            if Signature(ir.route) == sig then UpstreamsFor(all, sig) + [ir.upstream] else UpstreamsFor(all, sig)
  {
    hide Signature, Image, Keep;
    KeepSnoc(all, ir, Signed(sig));
    ImageSnoc(Keep(all, Signed(sig)), ir, UpstreamPart());
  }

  lemma {:induction false} NoneUpstreams(all: seq<InstanceRoute>, sig: RouteDefinition)
    requires First(all, Signed(sig)).None?
    ensures UpstreamsFor(all, sig) == []
  {
    hide Signature;
    if all != [] {
      FirstSnoc(all, Signed(sig));
      NoneUpstreams(all[..|all| - 1], sig);
    }
  }

  lemma {:induction false} SigOrderSeen(all: seq<InstanceRoute>)
    ensures forall sig :: sig in SigOrder(all) <==> Seen(all, sig)
    ensures forall i, j | 0 <= i < j < |SigOrder(all)| :: SigOrder(all)[i] != SigOrder(all)[j]
  {
    hide Signature, First;
    if all != [] {
      var n := |all| - 1;
      SigOrderSeen(all[..n]);
      var last := Signature(all[n].route);
      assert last in SigOrder(all[..n]) <==> Seen(all[..n], last);
      forall sig
        ensures sig in SigOrder(all) <==> Seen(all, sig)
      {
        FirstSnoc(all, Signed(sig));
      }
    }
  }

  /** Phases 2 and 3. */
  method GroupRoutes(all: seq<InstanceRoute>) returns (enabled: seq<RouteDefinition>)
    ensures Matches(all, enabled)
  {
    var routeMap: map<RouteDefinition, Group>, routeOrder: seq<RouteDefinition> := map[], [];
    assert all[..0] == [];
    hide Signature, Signed, First, Seen, Keep, Image, UpstreamsFor, SigOrder, Groups, Matches, AddTo;
    for i := 0 to |all|
      invariant Groups(routeMap, all[..i]) && routeOrder == SigOrder(all[..i])
    {
      var ir := all[i];
      var sig := Signature(ir.route);
      GroupStep(routeMap, all, i);
      if sig in routeMap {
        var g := routeMap[sig];
        routeMap := routeMap[sig := Group(g.route, g.upstreams + [ir.upstream])];
      } else {
        routeMap := routeMap[sig := Group(ir.route, [ir.upstream])];
        routeOrder := routeOrder + [sig];
      }
    }
    assert all[..|all|] == all;
    SigOrderSeen(all);
    forall i | 0 <= i < |routeOrder|
      ensures routeOrder[i] in routeMap && Seen(all, routeOrder[i])
    {
      assert routeOrder[i] in routeOrder;
      GroupAt(routeMap, all, routeOrder[i]);
    }
    enabled := Assemble(all, routeMap, routeOrder);
  }

  /** Each of these signatures got the first route declared under it, with all the
      upstreams declared under it. */
  ghost predicate Assembled(all: seq<InstanceRoute>, sigs: seq<RouteDefinition>, routes: seq<RouteDefinition>) {
    && |routes| == |sigs|
    && forall i | 0 <= i < |sigs| :: Seen(all, sigs[i]) && routes[i] == RouteFor(all, sigs[i])
  }

  /** The result: the enabled signatures in first-seen order. */
  ghost predicate Matches(all: seq<InstanceRoute>, routes: seq<RouteDefinition>) {
    Assembled(all, Keep(SigOrder(all), IsEnabled), routes)
  }

  lemma GroupAt(m: map<RouteDefinition, Group>, all: seq<InstanceRoute>, sig: RouteDefinition)
    requires Groups(m, all) && Seen(all, sig)
    ensures sig in m && m[sig].route.enabled == sig.enabled
    ensures m[sig].route.(upstreams := m[sig].upstreams) == RouteFor(all, sig)
  {
    hide UpstreamsFor;
    assert GroupsAt(m, all, sig);
    assert Signed(sig)(First(all, Signed(sig)).value);
  }

  lemma AssembledSnoc(all: seq<InstanceRoute>, sigs: seq<RouteDefinition>, routes: seq<RouteDefinition>, sig: RouteDefinition)
    requires Assembled(all, sigs, routes) && Seen(all, sig)
    ensures Assembled(all, sigs + [sig], routes + [RouteFor(all, sig)])
  {
    hide First, Signed, UpstreamsFor, RouteFor;
  }

  lemma AssembledNone(all: seq<InstanceRoute>, sigs: seq<RouteDefinition>)
    ensures Assembled(all, Keep(sigs[..0], IsEnabled), [])
  {
    assert Keep(sigs[..0], IsEnabled) == [];
  }

  method AssembleOne(ghost all: seq<InstanceRoute>, routeMap: map<RouteDefinition, Group>, sig: RouteDefinition,
                     ghost sigs: seq<RouteDefinition>, enabled: seq<RouteDefinition>)
    returns (out: seq<RouteDefinition>)
    requires Groups(routeMap, all) && Seen(all, sig) && sig in routeMap && Assembled(all, sigs, enabled)
    ensures Assembled(all, if IsEnabled(sig) then sigs + [sig] else sigs, out)
  {
    hide First, Seen, Signed, UpstreamsFor, Groups, RouteFor, Assembled;
    GroupAt(routeMap, all, sig);
    AssembledSnoc(all, sigs, enabled, sig);
    var gr := routeMap[sig];
    out := if gr.route.enabled then enabled + [gr.route.(upstreams := gr.upstreams)] else enabled;
  }

  /** Phase 3. The group's own enabled flag is the signature's. */
  method Assemble(ghost all: seq<InstanceRoute>, routeMap: map<RouteDefinition, Group>, routeOrder: seq<RouteDefinition>)
    returns (enabled: seq<RouteDefinition>)
    requires Groups(routeMap, all) && routeOrder == SigOrder(all)
    requires forall i | 0 <= i < |routeOrder| :: routeOrder[i] in routeMap && Seen(all, routeOrder[i])
    ensures Matches(all, enabled)
  {
    hide First, Seen, Keep, SigOrder, Groups, Assembled;
    enabled := [];
    AssembledNone(all, routeOrder);
    for i := 0 to |routeOrder|
      invariant Assembled(all, Keep(routeOrder[..i], IsEnabled), enabled)
    {
      var sig := routeOrder[i];
      KeepSnoc(routeOrder[..i], sig, IsEnabled);
      assert routeOrder[..i + 1] == routeOrder[..i] + [sig];
      enabled := AssembleOne(all, routeMap, sig, Keep(routeOrder[..i], IsEnabled), enabled);
    }
    assert routeOrder[..|routeOrder|] == routeOrder;
  }

  // ----- Grouping is a faithful group-by ------------------------------------------

  /** Where one signature comes before another, it was declared before it. */
  ghost predicate DeclaredBefore(all: seq<InstanceRoute>, a: RouteDefinition, b: RouteDefinition) {
    exists p | 0 <= p < |all| :: Signed(a)(all[p]) && forall q | 0 <= q <= p :: !Signed(b)(all[q])
  }

  lemma {:induction false} FirstSeenOrder(all: seq<InstanceRoute>, i: nat, j: nat)
    requires i < j < |SigOrder(all)|
    ensures DeclaredBefore(all, SigOrder(all)[i], SigOrder(all)[j])
  {
    hide Signature;
    var n := |all| - 1;
    var before := SigOrder(all[..n]);
    var a, b := SigOrder(all)[i], SigOrder(all)[j];
    if j < |before| {
      FirstSeenOrder(all[..n], i, j);
      var p :| 0 <= p < n && Signed(a)(all[..n][p]) && forall q | 0 <= q <= p :: !Signed(b)(all[..n][q]);
      assert Signed(a)(all[p]) && forall q | 0 <= q <= p :: !Signed(b)(all[q]);
    } else {
      SigOrderSeen(all[..n]);
      assert a in before && Seen(all[..n], a) && !Seen(all[..n], b);
      var p := FirstIn(all[..n], Signed(a));
      assert Signed(a)(all[p]) && forall q | 0 <= q <= p :: !Signed(b)(all[q]) by {
        assert forall q | 0 <= q < n :: all[..n][q] == all[q];
      }
    }
  }

  function PairOf(): InstanceRoute -> (RouteDefinition, Upstream) {
    (ir: InstanceRoute) => (Signature(ir.route), ir.upstream)
  }

  lemma {:induction false} PairCount(all: seq<InstanceRoute>, sig: RouteDefinition, u: Upstream)
    ensures multiset(UpstreamsFor(all, sig))[u] == multiset(Image(all, PairOf()))[(sig, u)]
  {
    if all != [] {
      hide Signature, Image, Keep, UpstreamsFor;
      var n := |all| - 1;
      PairCount(all[..n], sig, u);
      assert all == all[..n] + [all[n]];
      UpstreamsSnoc(all[..n], all[n], sig);
      ImageSnoc(all[..n], all[n], PairOf());
    }
  }

  /** The result has one route per enabled signature declared and no other, the routes in
      the order their signatures were first declared; and each route lists an upstream as
      often as that upstream declared the route's signature. */
  lemma FaithfulGroupBy(all: seq<InstanceRoute>, routes: seq<RouteDefinition>)
    requires Matches(all, routes)
    ensures forall i, j | 0 <= i < j < |routes| ::
              && Signature(routes[i]) != Signature(routes[j])
              && DeclaredBefore(all, Signature(routes[i]), Signature(routes[j]))
    ensures forall sig | IsEnabled(sig) :: Seen(all, sig) <==> exists i | 0 <= i < |routes| :: Signature(routes[i]) == sig
    ensures forall i, u | 0 <= i < |routes| ::
              routes[i].enabled
              && multiset(routes[i].upstreams)[u] == multiset(Image(all, PairOf()))[(Signature(routes[i]), u)]
  {
    var order := SigOrder(all);
    var sigs := Keep(order, IsEnabled);
    forall i | 0 <= i < |routes|
      ensures Signature(routes[i]) == sigs[i] && routes[i].enabled && routes[i].upstreams == UpstreamsFor(all, sigs[i])
    {
      assert routes[i] == RouteFor(all, sigs[i]) && IsEnabled(sigs[i]);
    }
    hide Signature, RouteFor, UpstreamsFor, Image, Seen;
    forall i, u | 0 <= i < |routes|
      ensures multiset(routes[i].upstreams)[u] == multiset(Image(all, PairOf()))[(Signature(routes[i]), u)]
    {
      PairCount(all, sigs[i], u);
    }
    SigOrderSeen(all);
    forall i, j | 0 <= i < j < |sigs|
      ensures sigs[i] != sigs[j] && DeclaredBefore(all, sigs[i], sigs[j])
    {
      var a, b := KeepKeepsOrder(order, IsEnabled, i, j);
      FirstSeenOrder(all, a, b);
    }
    forall sig | IsEnabled(sig)
      ensures Seen(all, sig) <==> exists i | 0 <= i < |routes| :: Signature(routes[i]) == sig
    {
      KeepMembers(order, IsEnabled, sig);
      assert sig in sigs <==> Seen(all, sig);
      if sig in sigs {
        var i :| 0 <= i < |sigs| && sigs[i] == sig;
        assert Signature(routes[i]) == sig;
      }
    }
  }

  /** Service name, routing tag and tag values of a route are those of the first declaration
      with its signature. */
  lemma FirstDeclarationCounts(all: seq<InstanceRoute>, routes: seq<RouteDefinition>, i: nat) returns (p: nat)
    requires Matches(all, routes) && i < |routes|
    ensures p < |all| && routes[i] == all[p].route.(upstreams := routes[i].upstreams)
    ensures Signature(all[p].route) == Signature(routes[i])
    ensures forall q | 0 <= q < p :: Signature(all[q].route) != Signature(routes[i])
  {
    hide UpstreamsFor, Keep;
    var sig := Keep(SigOrder(all), IsEnabled)[i];
    assert Seen(all, sig) && routes[i] == RouteFor(all, sig);
    p := FirstIn(all, Signed(sig));
    assert forall q | 0 <= q < p :: !Signed(sig)(all[q]);
  }

  lemma {:induction false} KeepKeepsOrder<T>(s: seq<T>, p: T -> bool, i: nat, j: nat) returns (a: nat, b: nat)
    requires i < j < |Keep(s, p)|
    ensures a < b < |s| && s[a] == Keep(s, p)[i] && s[b] == Keep(s, p)[j]
  {
    var n := |s| - 1;
    if j < |Keep(s[..n], p)| {
      a, b := KeepKeepsOrder(s[..n], p, i, j);
    } else {
      a := KeepPosition(s[..n], p, i);
      b := n;
    }
  }

  lemma {:induction false} KeepPosition<T>(s: seq<T>, p: T -> bool, i: nat) returns (a: nat)
    requires i < |Keep(s, p)|
    ensures a < |s| && s[a] == Keep(s, p)[i]
  {
    var n := |s| - 1;
    if i < |Keep(s[..n], p)| { a := KeepPosition(s[..n], p, i); } else { a := n; }
  }

  lemma KeepMembers<T>(s: seq<T>, p: T -> bool, x: T)
    ensures x in Keep(s, p) <==> x in s && p(x)
  {
    KeepCount(s, p, x);
    assert x in Keep(s, p) <==> x in multiset(Keep(s, p));
    assert x in s <==> x in multiset(s);
  }
}
