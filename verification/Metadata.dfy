/** Reading the routes of a service out of its instances' metadata and tags
    (metadata.go). */
module Metadata {
  import opened Prelude
  import opened Strings
  import opened Types
  import opened IndexedMeta
  import opened Grouping
  import Keys

  // ----- One route from its fields ------------------------------------------------

  const BLANK_ROUTE := RouteDefinition("", HTTP, "", "", 0, 0, 0, false, true, [], "", 0, "", false, "", false, map[])

  function Text(f: Meta, name: string): string { if name in f then f[name] else "" }

  /** An integer field; left alone when absent or malformed. */
  function Number(f: Meta, name: string): int {
    if name in f && Atoi(f[name]).Some? then Atoi(f[name]).value else 0
  }

  predicate Flag(f: Meta, name: string) { name in f && f[name] == "true" }

  /** `sni` stands in for the host of TCP and TLS routes. */
  function RouteFrom(f: Meta): RouteDefinition {
    RouteDefinition(
      "", if "protocol" in f then ToProtocol(f["protocol"]) else HTTP,
      if "sni" in f then f["sni"] else Text(f, "host"), Text(f, "path"), Number(f, "port"),
      Number(f, "priority"), Number(f, "weight"), Flag(f, "strip-prefix"),
      !("enabled" in f && f["enabled"] == "false"), [], "",
      Number(f, "redirect-code"), Text(f, "redirect-url"), Flag(f, "redirect-no-cache"),
      Text(f, "no-cache-status"), "no-cache-status" in f, map[])
  }

  // ----- Indexed metadata ----------------------------------------------------------

  predicate Ascending(s: seq<nat>) { forall i, j | 0 <= i < j < |s| :: s[i] < s[j] }

  function Numbers(s: seq<nat>): set<nat> { set i | i in s }

  lemma {:induction false} AscendingUnique(a: seq<nat>, b: seq<nat>)
    requires Ascending(a) && Ascending(b) && Numbers(a) == Numbers(b)
    ensures a == b
    decreases |a|
  {
    HeadIn(a);
    HeadIn(b);
    if a != [] {
      assert a[0] == b[0];
      TailNumbers(a);
      TailNumbers(b);
      AscendingUnique(a[1..], b[1..]);
      assert a == [a[0]] + a[1..] && b == [b[0]] + b[1..];
    }
  }

  lemma HeadIn(a: seq<nat>)
    ensures a != [] ==> a[0] in Numbers(a)
    ensures a == [] ==> Numbers(a) == {}
  {
  }

  lemma TailNumbers(a: seq<nat>)
    requires a != [] && Ascending(a)
    ensures Numbers(a[1..]) == Numbers(a) - {a[0]}
  {
    assert a == [a[0]] + a[1..];
  }

  /** The routes the groups stand for: one per index, in ascending order. */
  ghost predicate InIndexOrder(g: Indexed, routes: seq<RouteDefinition>) {
    exists idx :: Ascending(idx) && Numbers(idx) == g.Keys && Listed(g, idx, routes)
  }

  ghost predicate Listed(g: Indexed, idx: seq<nat>, routes: seq<RouteDefinition>) {
    |routes| == |idx| && forall i | 0 <= i < |idx| :: idx[i] in g && routes[i] == RouteFrom(g[idx[i]])
  }

  lemma InIndexOrderUnique(g: Indexed, a: seq<RouteDefinition>, b: seq<RouteDefinition>)
    requires InIndexOrder(g, a) && InIndexOrder(g, b)
    ensures a == b
  {
    hide RouteFrom, Ascending, Numbers;
    var i :| Ascending(i) && Numbers(i) == g.Keys && Listed(g, i, a);
    var j :| Ascending(j) && Numbers(j) == g.Keys && Listed(g, j, b);
    AscendingUnique(i, j);
  }

  method LeastOf(s: set<nat>) returns (m: nat)
    requires s != {}
    ensures m in s && forall y | y in s :: m <= y
  {
    m := Pick(s);
    var rest := s - {m};
    while rest != {}
      invariant rest <= s && m in s && forall y | y in s && y !in rest :: m <= y
      decreases rest
    {
      var x := Pick(rest);
      rest := rest - {x};
      if x < m { m := x; }
    }
  }

  /** The keys collected from the map and sorted with `sort.Ints`. */
  method SortIndices(keys: set<nat>) returns (idx: seq<nat>)
    ensures Ascending(idx) && Numbers(idx) == keys
  {
    idx := [];
    HeadIn(idx);
    hide Numbers;
    var todo := keys;
    while todo != {}
      invariant todo <= keys && Ascending(idx) && Numbers(idx) == keys - todo
      invariant forall i, y | 0 <= i < |idx| && y in todo :: idx[i] < y
      decreases todo
    {
      var m := LeastOf(todo);
      TakeLeast(keys, todo, idx, m);
      todo := todo - {m};
      idx := idx + [m];
    }
  }

  lemma TakeLeast(keys: set<nat>, todo: set<nat>, idx: seq<nat>, m: nat)
    requires m in todo && todo <= keys && Numbers(idx) == keys - todo
    ensures Numbers(idx + [m]) == keys - (todo - {m})
  {
    assert Numbers(idx + [m]) == Numbers(idx) + {m};
  }

  /** The loop over the map. */
  method GroupByIndex(meta: Meta, order: seq<string>) returns (indexed: Indexed)
    requires Iterates(order, meta)
    ensures indexed == Grouped(meta, order)
  {
    indexed := map[];
    hide ParseKey, Put;
    for i := 0 to |order|
      invariant indexed == Grouped(meta, order[..i])
    {
      assert order[i] in order && order[..i + 1][..i] == order[..i];
      var key := ParseKey(order[i]);
      if key.Some? {
        indexed := Put(indexed, key.value, meta[order[i]]);
      }
    }
    assert order[..|order|] == order;
  }

  /** `parseIndexedMeta`, walking the map in the given order. */
  method ParseIndexedMeta(meta: Meta, order: seq<string>) returns (routes: seq<RouteDefinition>)
    requires Iterates(order, meta)
    ensures InIndexOrder(Grouped(meta, order), routes)
    ensures routes == [] <==> Grouped(meta, order) == map[]
  {
    hide RouteFrom, Grouped;
    var indexed := GroupByIndex(meta, order);
    var idx := SortIndices(indexed.Keys);
    routes := [];
    for i := 0 to |idx|
      invariant Listed(indexed, idx[..i], routes)
    {
      assert idx[i] in Numbers(idx);
      assert idx[..i + 1] == idx[..i] + [idx[i]];
      routes := routes + [RouteFrom(indexed[idx[i]])];
    }
    assert idx[..|idx|] == idx;
    HeadIn(idx);
  }

  // ----- The walk of the map ----------------------------------------------------------

  /** What a route takes from the text of a field. */
  datatype Reading = Said(text: string) | Count(n: int) | Switch(on: bool) | Unread

  function Read(field: string, v: string): Reading {
    match field
    case "protocol" => Said(v)
    case "host" => Said(v)
    case "sni" => Said(v)
    case "path" => Said(v)
    case "redirect-url" => Said(v)
    case "no-cache-status" => Said(v)
    case "port" => Count(if Atoi(v).Some? then Atoi(v).value else 0)
    case "priority" => Count(if Atoi(v).Some? then Atoi(v).value else 0)
    case "weight" => Count(if Atoi(v).Some? then Atoi(v).value else 0)
    case "redirect-code" => Count(if Atoi(v).Some? then Atoi(v).value else 0)
    case "strip-prefix" => Switch(v == "true")
    case "redirect-no-cache" => Switch(v == "true")
    case "enabled" => Switch(v != "false")
    case _ => Unread
  }

  /** The two texts of a field make no difference to a route with these fields. */
  predicate Alike(f: Meta, field: string, v: string, w: string) {
    Read(field, v) == Read(field, w) || (field == "host" && "sni" in f)
  }

  lemma ProtocolInjective(a: string, b: string)
    ensures ToProtocol(a) == ToProtocol(b) ==> a == b
  {
  }

  /** The same fields, with texts that make no difference. */
  ghost predicate AllAlike(f: Meta, g: Meta) { f.Keys == g.Keys && forall x | x in f :: Alike(f, x, f[x], g[x]) }

  lemma AlikeTexts(f: Meta, g: Meta)
    requires AllAlike(f, g)
    ensures ("protocol" in f <==> "protocol" in g) && ("protocol" in f ==> f["protocol"] == g["protocol"])
    ensures ("sni" in f <==> "sni" in g) && ("sni" in f ==> f["sni"] == g["sni"])
    ensures "sni" in f || Text(f, "host") == Text(g, "host")
    ensures Text(f, "path") == Text(g, "path") && Text(f, "redirect-url") == Text(g, "redirect-url")
    ensures ("no-cache-status" in f <==> "no-cache-status" in g) && Text(f, "no-cache-status") == Text(g, "no-cache-status")
  {
  }

  lemma AlikeNumber(f: Meta, g: Meta, name: string)
    requires AllAlike(f, g) && (name == "port" || name == "priority" || name == "weight" || name == "redirect-code")
    ensures Number(f, name) == Number(g, name)
  {
    hide Atoi;
  }

  lemma AlikeFlags(f: Meta, g: Meta)
    requires AllAlike(f, g)
    ensures Flag(f, "strip-prefix") == Flag(g, "strip-prefix")
    ensures Flag(f, "redirect-no-cache") == Flag(g, "redirect-no-cache")
    ensures ("enabled" in f && f["enabled"] == "false") <==> ("enabled" in g && g["enabled"] == "false")
  {
  }

  lemma SameReadingSameRoute(f: Meta, g: Meta)
    requires AllAlike(f, g)
    ensures RouteFrom(f) == RouteFrom(g)
  {
    hide ToProtocol, AllAlike, Text, Number, Flag;
    AlikeTexts(f, g);
    AlikeNumber(f, g, "port");
    AlikeNumber(f, g, "priority");
    AlikeNumber(f, g, "weight");
    AlikeNumber(f, g, "redirect-code");
    AlikeFlags(f, g);
  }

  lemma OtherReadingOtherRoute(f: Meta, g: Meta, field: string)
    requires f.Keys == g.Keys && field in f && !Alike(f, field, f[field], g[field])
    ensures RouteFrom(f) != RouteFrom(g)
  {
    hide ToProtocol, Atoi;
    if field == "protocol" { ProtocolInjective(f[field], g[field]); }
  }

  /** Any two keys that spell one field say the same to the route: the values read alike,
      or the field is a host where some key spells an sni for the same route. */
  ghost predicate ReadsAlike(meta: Meta) {
    forall k, l | k in meta && l in meta && ParseKey(k).Some? && ParseKey(k) == ParseKey(l) ::
      SpeltAlike(meta, ParseKey(k).value, meta[k], meta[l])
  }

  ghost predicate SpeltAlike(meta: Meta, s: Spelled, v: string, w: string) {
    Read(s.field, v) == Read(s.field, w) || (s.field == "host" && IsSpelled(meta, Spelled(s.index, "sni")))
  }

  ghost predicate IsSpelled(meta: Meta, s: Spelled) { exists k :: k in meta && Spells(k, s) }

  /** Which fields the groups have does not depend on the walk. */
  lemma GroupedShape(meta: Meta, order: seq<string>, i: nat, field: string)
    requires Iterates(order, meta)
    ensures var g := Grouped(meta, order);
            (i in g && field in g[i]) <==> IsSpelled(meta, Spelled(i, field))
  {
    hide ParseKey, Grouped;
    var s := Spelled(i, field);
    GroupedAt(meta, order, s);
    if k :| k in meta && Spells(k, s) {
      assert k in order;
    }
    forall j | 0 <= j < |order| && Spells(order[j], s)
      ensures IsSpelled(meta, s)
    {
      assert order[j] in order;
    }
  }

  lemma SameShape(meta: Meta, o1: seq<string>, o2: seq<string>)
    requires Iterates(o1, meta) && Iterates(o2, meta)
    ensures var g, h := Grouped(meta, o1), Grouped(meta, o2);
            g.Keys == h.Keys && forall i | i in g :: g[i].Keys == h[i].Keys
  {
    hide ParseKey, Grouped, IsSpelled;
    var g, h := Grouped(meta, o1), Grouped(meta, o2);
    forall i: nat, f
      ensures (i in g && f in g[i]) <==> (i in h && f in h[i])
    {
      GroupedShape(meta, o1, i, f);
      GroupedShape(meta, o2, i, f);
    }
    GroupedAt(meta, o1, Spelled(0, ""));
    GroupedAt(meta, o2, Spelled(0, ""));
    ShapeOf(g, h);
  }

  lemma ShapeOf(g: Indexed, h: Indexed)
    requires NoEmptyGroup(g) && NoEmptyGroup(h)
    requires forall i: nat, f :: (i in g && f in g[i]) <==> (i in h && f in h[i])
    ensures g.Keys == h.Keys && forall i | i in g :: g[i].Keys == h[i].Keys
  {
    forall i
      ensures i in g <==> i in h
    {
      if i in g { Inhabited(g[i].Keys); }
      if i in h { Inhabited(h[i].Keys); }
    }
  }

  /** What is in a group was spelled for it. */
  lemma GroupedFrom(meta: Meta, order: seq<string>, i: nat, field: string) returns (k: string)
    requires Iterates(order, meta) && i in Grouped(meta, order) && field in Grouped(meta, order)[i]
    ensures k in meta && Spells(k, Spelled(i, field)) && Grouped(meta, order)[i][field] == meta[k]
  {
    hide ParseKey, Grouped;
    GroupedAt(meta, order, Spelled(i, field));
    var j :| 0 <= j < |order| && Spells(order[j], Spelled(i, field)) && Grouped(meta, order)[i][field] == meta[order[j]];
    assert order[j] in order;
    k := order[j];
  }

  lemma SameRouteAt(meta: Meta, o1: seq<string>, o2: seq<string>, i: nat)
    requires Iterates(o1, meta) && Iterates(o2, meta) && ReadsAlike(meta)
    ensures i in Grouped(meta, o1) && i in Grouped(meta, o2)
            ==> RouteFrom(Grouped(meta, o1)[i]) == RouteFrom(Grouped(meta, o2)[i])
  {
    hide ParseKey, Grouped, RouteFrom, Read;
    SameShape(meta, o1, o2);
    if i in Grouped(meta, o1) {
      var f, g := Grouped(meta, o1)[i], Grouped(meta, o2)[i];
      forall x | x in f
        ensures Alike(f, x, f[x], g[x])
      {
        var k := GroupedFrom(meta, o1, i, x);
        var l := GroupedFrom(meta, o2, i, x);
        assert SpeltAlike(meta, Spelled(i, x), meta[k], meta[l]);
        GroupedShape(meta, o1, i, "sni");
      }
      SameReadingSameRoute(f, g);
    }
  }

  lemma SameRoutesListed(g: Indexed, h: Indexed, routes: seq<RouteDefinition>)
    requires g.Keys == h.Keys && forall i | i in g :: RouteFrom(g[i]) == RouteFrom(h[i])
    requires InIndexOrder(g, routes)
    ensures InIndexOrder(h, routes)
  {
    hide RouteFrom, Ascending, Numbers;
    var idx :| Ascending(idx) && Numbers(idx) == g.Keys && Listed(g, idx, routes);
    assert Listed(h, idx, routes);
  }

  /** Whatever order the map is walked in, the routes are the same and in ascending index
      order, provided keys that spell one field read alike. */
  lemma IndexedRoutesOrderIndependent(meta: Meta, o1: seq<string>, o2: seq<string>,
                                      r1: seq<RouteDefinition>, r2: seq<RouteDefinition>)
    requires Iterates(o1, meta) && Iterates(o2, meta) && ReadsAlike(meta)
    requires InIndexOrder(Grouped(meta, o1), r1) && InIndexOrder(Grouped(meta, o2), r2)
    ensures r1 == r2
  {
    hide Iterates, Grouped, InIndexOrder, ReadsAlike, RouteFrom;
    SameShape(meta, o1, o2);
    forall i | i in Grouped(meta, o1)
      ensures RouteFrom(Grouped(meta, o1)[i]) == RouteFrom(Grouped(meta, o2)[i])
    {
      SameRouteAt(meta, o1, o2, i);
    }
    SameRoutesListed(Grouped(meta, o1), Grouped(meta, o2), r1);
    InIndexOrderUnique(Grouped(meta, o2), r1, r2);
  }

  lemma {:induction false} Least(s: set<nat>, bound: nat) returns (m: nat)
    requires bound in s
    ensures m in s && forall y | y in s :: m <= y
    decreases bound
  {
    if y :| y in s && y < bound { m := Least(s, y); } else { m := bound; }
  }

  lemma {:induction false} AscendingExists(keys: set<nat>) returns (idx: seq<nat>)
    ensures Ascending(idx) && Numbers(idx) == keys
    decreases |keys|
  {
    idx := [];
    HeadIn(idx);
    if keys != {} {
      Inhabited(keys);
      var y :| y in keys;
      var m := Least(keys, y);
      hide Ascending, Numbers;
      var rest := AscendingExists(keys - {m});
      idx := [m] + rest;
      ConsAscending(keys, m, rest);
    }
  }

  lemma ConsAscending(keys: set<nat>, m: nat, rest: seq<nat>)
    requires m in keys && (forall y | y in keys :: m <= y) && Ascending(rest) && Numbers(rest) == keys - {m}
    ensures Ascending([m] + rest) && Numbers([m] + rest) == keys
  {
    forall i | 0 <= i < |rest|
      ensures m < rest[i]
    {
      InNumbers(rest, i);
    }
    assert Ascending([m] + rest);
    hide Ascending;
    hide Numbers;
    assert {m} + (keys - {m}) == keys;
  }

  lemma RoutesExist(g: Indexed) returns (routes: seq<RouteDefinition>)
    ensures InIndexOrder(g, routes)
  {
    hide RouteFrom, Ascending, Numbers;
    var idx := AscendingExists(g.Keys);
    forall i | 0 <= i < |idx|
      ensures idx[i] in g
    {
      InNumbers(idx, i);
    }
    routes := seq(|idx|, i requires 0 <= i < |idx| => RouteFrom(g[idx[i]]));
    assert Listed(g, idx, routes);
  }

  lemma InNumbers(idx: seq<nat>, i: nat)
    requires i < |idx|
    ensures idx[i] in Numbers(idx)
  {
  }

  /** Lists of routes for the same indices differ where a route differs. */
  lemma OtherRouteOtherList(g: Indexed, h: Indexed, i: nat, a: seq<RouteDefinition>, b: seq<RouteDefinition>)
    requires g.Keys == h.Keys && InIndexOrder(g, a) && InIndexOrder(h, b)
    ensures i in g && RouteFrom(g[i]) != RouteFrom(h[i]) ==> a != b
  {
    hide RouteFrom, Ascending;
    var idx :| Ascending(idx) && Numbers(idx) == g.Keys && Listed(g, idx, a);
    var idx' :| Ascending(idx') && Numbers(idx') == h.Keys && Listed(h, idx', b);
    AscendingUnique(idx, idx');
    if i in g && RouteFrom(g[i]) != RouteFrom(h[i]) {
      assert i in Numbers(idx);
      var p :| 0 <= p < |idx| && idx[p] == i;
      assert a[p] != b[p];
    }
  }

  /** If two keys spell a field and do not read alike, two walks give different routes. */
  lemma WalksDiffer(meta: Meta, order: seq<string>, k: string, l: string)
    returns (o1: seq<string>, r1: seq<RouteDefinition>, o2: seq<string>, r2: seq<RouteDefinition>)
    requires Iterates(order, meta) && k in meta && l in meta && ParseKey(k).Some? && ParseKey(k) == ParseKey(l)
    requires !SpeltAlike(meta, ParseKey(k).value, meta[k], meta[l])
    ensures Iterates(o1, meta) && Iterates(o2, meta) && r1 != r2
    ensures InIndexOrder(Grouped(meta, o1), r1) && InIndexOrder(Grouped(meta, o2), r2)
  {
    var s := ParseKey(k).value;
    hide ParseKey, Grouped, RouteFrom, Read, InIndexOrder;
    o1 := MoveLast(order, meta, k);
    o2 := MoveLast(order, meta, l);
    GroupedAt(meta, o1, s);
    GroupedAt(meta, o2, s);
    assert Spells(k, s) && Spells(l, s);
    var g, h := Grouped(meta, o1), Grouped(meta, o2);
    assert At(g, s) == Some(meta[k]) && At(h, s) == Some(meta[l]);
    SameShape(meta, o1, o2);
    GroupedShape(meta, o1, s.index, "sni");
    OtherReadingOtherRoute(g[s.index], h[s.index], s.field);
    r1 := RoutesExist(g);
    r2 := RoutesExist(h);
    OtherRouteOtherList(g, h, s.index, r1, r2);
  }

  /** All walks of the map give the same list of routes. */
  ghost predicate SameForAllWalks(meta: Meta) {
    forall o1, r1, o2, r2 ::
      Iterates(o1, meta) && InIndexOrder(Grouped(meta, o1), r1) && Iterates(o2, meta) && InIndexOrder(Grouped(meta, o2), r2)
      ==> r1 == r2
  }

  /** Exactly when the routes read from indexed metadata do not depend on the order in
      which the map is walked. */
  lemma SameForAllWalksExactly(meta: Meta, order: seq<string>)
    requires Iterates(order, meta)
    ensures SameForAllWalks(meta) <==> ReadsAlike(meta)
  {
    hide Iterates, Grouped, InIndexOrder, SpeltAlike;
    if ReadsAlike(meta) {
      forall o1, r1, o2, r2 |
        Iterates(o1, meta) && InIndexOrder(Grouped(meta, o1), r1) && Iterates(o2, meta) && InIndexOrder(Grouped(meta, o2), r2)
        ensures r1 == r2
      {
        IndexedRoutesOrderIndependent(meta, o1, o2, r1, r2);
      }
    } else {
      var k, l :| k in meta && l in meta && ParseKey(k).Some? && ParseKey(k) == ParseKey(l)
                  && !SpeltAlike(meta, ParseKey(k).value, meta[k], meta[l]);
      var o1, r1, o2, r2 := WalksDiffer(meta, order, k, l);
    }
  }

  // ----- Plain metadata -------------------------------------------------------------

  predicate HasNonIndexed(meta: Meta) { exists k :: k in meta && HasPrefix(k, "caddy-") && !IsIndexed(k) }

  const PLAIN_FIELDS: set<string> := {
    "protocol", "host", "path", "port", "priority", "weight", "strip-prefix", "redirect-code",
    "redirect-url", "redirect-no-cache", "enabled", "no-cache-status" }

  function PlainFields(meta: Meta): Meta { map f | f in PLAIN_FIELDS && ("caddy-" + f) in meta :: meta["caddy-" + f] }

  function NonIndexedRoute(meta: Meta): RouteDefinition { RouteFrom(PlainFields(meta)) }

  // ----- Fabio tags -------------------------------------------------------------------

  const FABIO_PREFIX := "urlprefix-"

  datatype Fabio = NoRoute | PortRedirect | Route(route: RouteDefinition) | Panic

  /** The `key=value` modifiers; the last one of a key counts. */
  function Modifiers(parts: seq<string>): map<string, string> {
    if parts == [] then map[] else
      var n := |parts| - 1;
      var m := Modifiers(parts[..n]);
      var i := IndexOf(parts[n], '=');
      if i < 0 then m else m[parts[n][..i] := parts[n][i + 1..]]
  }

  function ReplacePath(s: string): string
    decreases |s|
  {
    if s == "" then ""
    else if HasPrefix(s, "$path") then "{http.request.uri}" + ReplacePath(s[5..])
    else [s[0]] + ReplacePath(s[1..])
  }

  /** redirect=CODE,URL with a 3xx code. */
  function Redirect(mods: map<string, string>): (r: (int, string)) {
    if "redirect" !in mods then (0, "") else
      var v := mods["redirect"];
      var i := IndexOf(v, ',');
      if i < 0 then (0, "") else
        var code := Atoi(v[..i]);
        if code.Some? && 300 <= code.value < 400 then (code.value, ReplacePath(v[i + 1..])) else (0, "")
  }

  function FabioProtocol(mods: map<string, string>): Protocol {
    if "proto" !in mods then HTTP
    else if mods["proto"] == "tcp" then TCP
    else if mods["proto"] == "https" then HTTPS
    else HTTP
  }

  function StripStandardPort(host: string): (h: string)
    ensures h <= host
  {
    if HasSuffix(host, ":80") then host[..|host| - 3]
    else if HasSuffix(host, ":443") then host[..|host| - 4]
    else host
  }

  /** The part before the first '/', and the rest from there. */
  function HostAndPath(url: string): (r: (string, string))
    ensures '/' !in r.0 && r.1 != "" && r.1[0] == '/'
  {
    var i := IndexOf(url, '/');
    if i < 0 then (url, "/") else (url[..i], url[i..])
  }

  /** `parseFabioTag`; a value of white space only makes it index an empty slice. */
  function FabioTag(tag: string): Fabio
    requires HasPrefix(tag, FABIO_PREFIX)
  {
    var value := tag[|FABIO_PREFIX|..];
    var parts := Words(value);
    if value == "" then NoRoute
    else if parts == [] then Panic
    else
      var url, mods := parts[0], Modifiers(parts[1..]);
      var redirect := Redirect(mods);
      var route := BLANK_ROUTE.(protocol := FabioProtocol(mods), stripPrefix := "strip" in mods,
                                redirectCode := redirect.0, redirectURL := redirect.1);
      if route.protocol == TCP then
        if !HasPrefix(url, ":") then NoRoute else
          var port := Atoi(url[1..]);
          if port.None? || port.value <= 0 then NoRoute else Route(route.(port := port.value))
      else
        var (rawHost, path) := HostAndPath(url);
        if (HasSuffix(rawHost, ":80") || HasSuffix(rawHost, ":443")) && route.redirectCode > 0 then PortRedirect
        else Route(route.(host := StripStandardPort(rawHost), path := path))
  }

  /** The parser panics exactly on a tag that is the prefix followed by white space. */
  lemma FabioPanicsExactly(tag: string)
    requires HasPrefix(tag, FABIO_PREFIX)
    ensures FabioTag(tag) == Panic <==> tag != FABIO_PREFIX && Blank(tag[|FABIO_PREFIX|..])
  {
    hide Redirect, Modifiers, FabioProtocol, Atoi;
    WordsOfBlank(tag[|FABIO_PREFIX|..]);
    assert tag == FABIO_PREFIX + tag[|FABIO_PREFIX|..];
  }

  /** HTTP routes read from Fabio tags have the shape on which keys are injective. */
  lemma FabioRoutesAreShaped(tag: string)
    requires HasPrefix(tag, FABIO_PREFIX) && FabioTag(tag).Route? && FabioTag(tag).route.IsHTTP()
    ensures var r := FabioTag(tag).route;
            Keys.Shaped(r.host, r.path) && r.path != "" && r.enabled
  {
    hide Redirect, Modifiers, FabioProtocol, Atoi;
    hide HostAndPath, StripStandardPort;
    var rawHost := HostAndPath(Words(tag[|FABIO_PREFIX|..])[0]).0;
    assert forall c | c in StripStandardPort(rawHost) :: c in rawHost;
  }

  // ----- Instances --------------------------------------------------------------------

  datatype Instance = Instance(
    id: string, address: string, port: int, tags: seq<string>, meta: Meta,
    healthy: bool, weight: int, nodeName: string)

  datatype ServiceState = ServiceState(name: string, instances: seq<Instance>)

  predicate HasTag(inst: Instance, tag: string) { tag != "" && tag in inst.tags }

  predicate HasFabioTag(tags: seq<string>) { exists t | t in tags :: HasPrefix(t, FABIO_PREFIX) }

  predicate HasCaddyMeta(meta: Meta) { exists k | k in meta :: HasPrefix(k, "caddy-") }

  /** An instance that counts: healthy, with an address, and asking for routing by one of the
      two tags, a metadata key that starts with caddy- or a tag that starts with urlprefix-. */
  ghost predicate AsksForRouting(inst: Instance, serviceTag: string, connectTag: string) {
    && inst.healthy && inst.address != ""
    && (|| (serviceTag != "" && serviceTag in inst.tags)
        || (connectTag != "" && connectTag in inst.tags)
        || (exists k :: k in inst.meta && |k| >= 6 && k[..6] == "caddy-")
        || (exists i | 0 <= i < |inst.tags| :: |inst.tags[i]| >= 10 && inst.tags[i][..10] == "urlprefix-"))
  }

  /** The tests at the top of the loop. */
  predicate Eligible(inst: Instance, serviceTag: string, connectTag: string) {
    && inst.healthy && inst.address != ""
    && (HasTag(inst, serviceTag) || HasTag(inst, connectTag) || HasCaddyMeta(inst.meta) || HasFabioTag(inst.tags))
  }

  lemma EligibleExactly(inst: Instance, serviceTag: string, connectTag: string)
    ensures Eligible(inst, serviceTag, connectTag) <==> AsksForRouting(inst, serviceTag, connectTag)
  {
    assert forall k: string :: HasPrefix(k, "caddy-") <==> |k| >= 6 && k[..6] == "caddy-";
    assert forall t: string :: HasPrefix(t, FABIO_PREFIX) <==> |t| >= 10 && t[..10] == "urlprefix-";
    assert HasFabioTag(inst.tags) <==>
           exists i | 0 <= i < |inst.tags| :: |inst.tags[i]| >= 10 && inst.tags[i][..10] == "urlprefix-" by {
      if t :| t in inst.tags && HasPrefix(t, FABIO_PREFIX) {
        var i :| 0 <= i < |inst.tags| && inst.tags[i] == t;
        assert |inst.tags[i]| >= 10 && inst.tags[i][..10] == "urlprefix-";
      }
    }
    hide HasPrefix, HasFabioTag;
  }

  function UpstreamOf(inst: Instance): Upstream {
    Upstream(inst.address + ":" + Itoa(inst.port), inst.weight, true, inst.nodeName)
  }

  /** `parseTagValues`: key=value tags, the first one of a key counts. */
  function TagValues(tags: seq<string>): map<string, string> {
    if tags == [] then map[] else
      var n := |tags| - 1;
      var m := TagValues(tags[..n]);
      var i := IndexOf(tags[n], '=');
      if i <= 0 || tags[n][..i] in m then m else m[tags[n][..i] := tags[n][i + 1..]]
  }

  predicate PanicsOn(tag: string) { HasPrefix(tag, FABIO_PREFIX) && FabioTag(tag) == Panic }

  function FabioRoutes(tags: seq<string>): seq<RouteDefinition> {
    if tags == [] then [] else
      var n := |tags| - 1;
      FabioRoutes(tags[..n])
      + if HasPrefix(tags[n], FABIO_PREFIX) && FabioTag(tags[n]).Route? then [FabioTag(tags[n]).route] else []
  }

  method ParseFabioTags(tags: seq<string>) returns (routes: seq<RouteDefinition>, panicked: bool)
    ensures panicked <==> exists i | 0 <= i < |tags| :: PanicsOn(tags[i])
    ensures !panicked ==> routes == FabioRoutes(tags)
  {
    hide FabioTag;
    routes, panicked := [], false;
    for i := 0 to |tags|
      invariant routes == FabioRoutes(tags[..i]) && forall k | 0 <= k < i :: !PanicsOn(tags[k])
    {
      assert tags[..i + 1][..i] == tags[..i];
      if HasPrefix(tags[i], FABIO_PREFIX) {
        match FabioTag(tags[i])
        case Panic => return [], true;
        case Route(rd) => routes := routes + [rd];
        case PortRedirect =>
        case NoRoute =>
      }
    }
    assert tags[..|tags|] == tags;
  }

  /** What an instance declares: indexed metadata before plain metadata before Fabio tags. */
  ghost predicate Declares(inst: Instance, order: seq<string>, routes: seq<RouteDefinition>) {
    var g := Grouped(inst.meta, order);
    if g != map[] then InIndexOrder(g, routes)
    else if HasNonIndexed(inst.meta) then routes == [NonIndexedRoute(inst.meta)]
    else routes == FabioRoutes(inst.tags)
  }

  method ParseInstance(inst: Instance, order: seq<string>) returns (routes: seq<RouteDefinition>, panicked: bool)
    requires Iterates(order, inst.meta)
    ensures panicked <==> exists i | 0 <= i < |inst.tags| :: PanicsOn(inst.tags[i])
    ensures !panicked ==> Declares(inst, order, routes)
  {
    hide FabioTag, FabioRoutes, Grouped, InIndexOrder, NonIndexedRoute;
    var indexed := ParseIndexedMeta(inst.meta, order);
    var fabio;
    fabio, panicked := ParseFabioTags(inst.tags);
    if panicked { return [], true; }
    if indexed != [] { return indexed, false; }
    if HasNonIndexed(inst.meta) { return [NonIndexedRoute(inst.meta)], false; }
    return fabio, false;
  }

  // ----- Phase 1 and the whole function -------------------------------------------------

  function Stamp(name: string, inst: Instance): RouteDefinition -> InstanceRoute {
    (r: RouteDefinition) => InstanceRoute(r.(serviceName := name, tagValues := TagValues(inst.tags)), UpstreamOf(inst))
  }

  /** All declarations in instance order; `decl` holds what each instance declared. */
  function AllRoutes(name: string, insts: seq<Instance>, decl: seq<seq<RouteDefinition>>): seq<InstanceRoute>
    requires |insts| == |decl|
  {
    if insts == [] then [] else
      var n := |insts| - 1;
      AllRoutes(name, insts[..n], decl[..n]) + Image(decl[n], Stamp(name, insts[n]))
  }

  /** Every instance that asks for routing declares what its own metadata and tags say,
      others nothing. */
  ghost predicate Parsed(insts: seq<Instance>, orders: seq<seq<string>>, decl: seq<seq<RouteDefinition>>,
                         serviceTag: string, connectTag: string)
    requires |insts| == |orders|
  {
    && |decl| == |insts|
    && forall i | 0 <= i < |insts| ::
         if AsksForRouting(insts[i], serviceTag, connectTag) then Declares(insts[i], orders[i], decl[i]) else decl[i] == []
  }

  ghost predicate PanicsOnInstance(inst: Instance, serviceTag: string, connectTag: string) {
    AsksForRouting(inst, serviceTag, connectTag) && exists i | 0 <= i < |inst.tags| :: PanicsOn(inst.tags[i])
  }

  method CollectRoutes(svc: ServiceState, orders: seq<seq<string>>, serviceTag: string, connectTag: string)
    returns (all: seq<InstanceRoute>, panicked: bool, ghost decl: seq<seq<RouteDefinition>>)
    requires |orders| == |svc.instances| && forall i | 0 <= i < |orders| :: Iterates(orders[i], svc.instances[i].meta)
    ensures panicked <==> exists i | 0 <= i < |svc.instances| :: PanicsOnInstance(svc.instances[i], serviceTag, connectTag)
    ensures !panicked ==> Parsed(svc.instances, orders, decl, serviceTag, connectTag)
                          && all == AllRoutes(svc.name, svc.instances, decl)
  {
    hide Declares, Eligible, AsksForRouting, PanicsOn, Stamp;
    var insts := svc.instances;
    all, panicked, decl := [], false, [];
    for i := 0 to |insts|
      invariant forall k | 0 <= k < i :: !PanicsOnInstance(insts[k], serviceTag, connectTag)
      invariant Parsed(insts[..i], orders[..i], decl, serviceTag, connectTag)
      invariant all == AllRoutes(svc.name, insts[..i], decl)
    {
      var inst := insts[i];
      assert insts[..i + 1][..i] == insts[..i];
      EligibleExactly(inst, serviceTag, connectTag);
      var routes := [];
      if Eligible(inst, serviceTag, connectTag) {
        routes, panicked := ParseInstance(inst, orders[i]);
        if panicked { return [], true, []; }
      }
      assert (decl + [routes])[..i] == decl;
      all := all + Image(routes, Stamp(svc.name, inst));
      decl := decl + [routes];
    }
    assert insts[..|insts|] == insts && orders[..|orders|] == orders;
  }

  /** `ParseServiceRoutes`; `orders` are the orders in which the metadata maps are walked. */
  method ParseServiceRoutes(svc: ServiceState, orders: seq<seq<string>>, serviceTag: string, connectTag: string)
    returns (routes: seq<RouteDefinition>, panicked: bool, ghost decl: seq<seq<RouteDefinition>>)
    requires |orders| == |svc.instances| && forall i | 0 <= i < |orders| :: Iterates(orders[i], svc.instances[i].meta)
    ensures panicked <==> exists i | 0 <= i < |svc.instances| :: PanicsOnInstance(svc.instances[i], serviceTag, connectTag)
    ensures !panicked ==> Parsed(svc.instances, orders, decl, serviceTag, connectTag)
                          && Matches(AllRoutes(svc.name, svc.instances, decl), routes)
  {
    hide PanicsOnInstance, Parsed, AllRoutes, Matches;
    var all;
    all, panicked, decl := CollectRoutes(svc, orders, serviceTag, connectTag);
    if panicked { return [], true, decl; }
    routes := GroupRoutes(all);
  }

  // ----- Nothing borrowed from another instance ------------------------------------------

  function SignedAs(sig: RouteDefinition): RouteDefinition -> bool { (r: RouteDefinition) => Signature(r) == sig }

  function Repeat<T>(x: T, n: nat): seq<T> { seq(n, _ => x) }

  /** Instance by instance: its own upstream, once per route it declared with the signature. */
  function PerInstance(insts: seq<Instance>, decl: seq<seq<RouteDefinition>>, sig: RouteDefinition): seq<Upstream>
    requires |insts| == |decl|
  {
    if insts == [] then [] else
      var n := |insts| - 1;
      PerInstance(insts[..n], decl[..n], sig) + Repeat(UpstreamOf(insts[n]), |Keep(decl[n], SignedAs(sig))|)
  }

  lemma {:induction false} UpstreamsConcat(a: seq<InstanceRoute>, b: seq<InstanceRoute>, sig: RouteDefinition)
    ensures UpstreamsFor(a + b, sig) == UpstreamsFor(a, sig) + UpstreamsFor(b, sig)
    decreases |b|
  {
    hide Signature, UpstreamsFor;
    if b == [] {
      assert a + b == a && UpstreamsFor(b, sig) == [] by { NoneUpstreams([], sig); }
    } else {
      var n := |b| - 1;
      UpstreamsConcat(a, b[..n], sig);
      assert a + b == a + b[..n] + [b[n]] && b == b[..n] + [b[n]];
      UpstreamsSnoc(a + b[..n], b[n], sig);
      UpstreamsSnoc(b[..n], b[n], sig);
    }
  }

  lemma StampKeepsSignature(name: string, inst: Instance, r: RouteDefinition)
    ensures var ir := Stamp(name, inst)(r);
            Signature(ir.route) == Signature(r) && ir.upstream == UpstreamOf(inst)
  {
  }

  lemma RepeatSnoc<T>(x: T, n: nat)
    ensures Repeat(x, n + 1) == Repeat(x, n) + [x]
  {
  }

  lemma NoneDeclared(name: string, inst: Instance, sig: RouteDefinition)
    ensures UpstreamsFor(Image([], Stamp(name, inst)), sig) == Repeat(UpstreamOf(inst), |Keep([], SignedAs(sig))|)
  {
    hide Signature, Stamp, UpstreamOf;
    assert Image([], Stamp(name, inst)) == [];
  }

  lemma {:induction false} UpstreamsOfInstance(name: string, inst: Instance, rs: seq<RouteDefinition>, sig: RouteDefinition)
    ensures UpstreamsFor(Image(rs, Stamp(name, inst)), sig) == Repeat(UpstreamOf(inst), |Keep(rs, SignedAs(sig))|)
    decreases |rs|
  {
    hide UpstreamsFor, UpstreamOf, Signature, Stamp, Image, Keep, Repeat;
    if rs == [] {
      NoneDeclared(name, inst, sig);
    } else {
      var n := |rs| - 1;
      UpstreamsOfInstance(name, inst, rs[..n], sig);
      assert rs == rs[..n] + [rs[n]];
      ImageSnoc(rs[..n], rs[n], Stamp(name, inst));
      StampKeepsSignature(name, inst, rs[n]);
      UpstreamsSnoc(Image(rs[..n], Stamp(name, inst)), Stamp(name, inst)(rs[n]), sig);
      KeepSnoc(rs[..n], rs[n], SignedAs(sig));
      RepeatSnoc(UpstreamOf(inst), |Keep(rs[..n], SignedAs(sig))|);
    }
  }

  /** The upstreams grouped under a signature are, in instance order, exactly one entry
      per route an instance itself declared with it. */
  lemma {:induction false} UpstreamsPerInstance(name: string, insts: seq<Instance>, decl: seq<seq<RouteDefinition>>,
                                                sig: RouteDefinition)
    requires |insts| == |decl|
    ensures UpstreamsFor(AllRoutes(name, insts, decl), sig) == PerInstance(insts, decl, sig)
    decreases |insts|
  {
    hide UpstreamsFor, Stamp, UpstreamOf;
    if insts == [] {
      NoneUpstreams([], sig);
    } else {
      var n := |insts| - 1;
      UpstreamsPerInstance(name, insts[..n], decl[..n], sig);
      UpstreamsConcat(AllRoutes(name, insts[..n], decl[..n]), Image(decl[n], Stamp(name, insts[n])), sig);
      UpstreamsOfInstance(name, insts[n], decl[n], sig);
    }
  }

  /** An upstream that stands for an instance. */
  predicate StandsFor(u: Upstream, inst: Instance) {
    && u.address == inst.address + ":" + Itoa(inst.port) && u.weight == inst.weight
    && u.healthy && u.nodeName == inst.nodeName
  }

  ghost predicate DeclaresSignature(rs: seq<RouteDefinition>, sig: RouteDefinition) {
    exists i | 0 <= i < |rs| :: Signature(rs[i]) == sig
  }

  lemma DeclaredHere(rs: seq<RouteDefinition>, sig: RouteDefinition)
    ensures Keep(rs, SignedAs(sig)) != [] <==> DeclaresSignature(rs, sig)
  {
    hide Signature, Keep;
    KeepSome(rs, SignedAs(sig));
  }

  lemma {:induction false} UpstreamFrom(insts: seq<Instance>, decl: seq<seq<RouteDefinition>>, sig: RouteDefinition, u: Upstream)
    returns (i: nat)
    requires |insts| == |decl| && u in PerInstance(insts, decl, sig)
    ensures i < |insts| && u == UpstreamOf(insts[i]) && DeclaresSignature(decl[i], sig)
    decreases |insts|
  {
    hide UpstreamOf, DeclaresSignature, Keep;
    var n := |insts| - 1;
    if u in PerInstance(insts[..n], decl[..n], sig) {
      i := UpstreamFrom(insts[..n], decl[..n], sig, u);
    } else {
      i := n;
      DeclaredHere(decl[n], sig);
    }
  }

  lemma {:induction false} UpstreamListed(insts: seq<Instance>, decl: seq<seq<RouteDefinition>>, sig: RouteDefinition, i: nat)
    requires |insts| == |decl| && i < |insts| && DeclaresSignature(decl[i], sig)
    ensures UpstreamOf(insts[i]) in PerInstance(insts, decl, sig)
    decreases |insts|
  {
    hide UpstreamOf, DeclaresSignature, Keep;
    var n := |insts| - 1;
    if i < n {
      UpstreamListed(insts[..n], decl[..n], sig, i);
    } else {
      DeclaredHere(decl[n], sig);
      assert Repeat(UpstreamOf(insts[n]), |Keep(decl[n], SignedAs(sig))|)[0] == UpstreamOf(insts[n]);
    }
  }

  /** Every upstream of a route stands for an instance that asks for routing and itself
      declared the route. */
  lemma UpstreamStandsFor(insts: seq<Instance>, orders: seq<seq<string>>, decl: seq<seq<RouteDefinition>>,
                          serviceTag: string, connectTag: string, sig: RouteDefinition, u: Upstream) returns (i: nat)
    requires |insts| == |orders| && Parsed(insts, orders, decl, serviceTag, connectTag)
    requires u in PerInstance(insts, decl, sig)
    ensures i < |insts| && StandsFor(u, insts[i]) && AsksForRouting(insts[i], serviceTag, connectTag)
    ensures DeclaresSignature(decl[i], sig) && Declares(insts[i], orders[i], decl[i])
  {
    hide PerInstance, AsksForRouting, Declares, Signature;
    i := UpstreamFrom(insts, decl, sig, u);
  }

  /** And every instance that declared it is there. */
  lemma InstanceIsUpstream(insts: seq<Instance>, decl: seq<seq<RouteDefinition>>, sig: RouteDefinition, i: nat)
    requires |insts| == |decl| && i < |insts| && DeclaresSignature(decl[i], sig)
    ensures exists u | u in PerInstance(insts, decl, sig) :: StandsFor(u, insts[i])
  {
    hide PerInstance, DeclaresSignature;
    UpstreamListed(insts, decl, sig, i);
    assert StandsFor(UpstreamOf(insts[i]), insts[i]);
  }

  lemma {:induction false} AllRoutesStamped(name: string, insts: seq<Instance>, decl: seq<seq<RouteDefinition>>, p: nat)
    returns (i: nat, r: RouteDefinition)
    requires |insts| == |decl| && p < |AllRoutes(name, insts, decl)|
    ensures i < |insts| && r in decl[i] && AllRoutes(name, insts, decl)[p] == Stamp(name, insts[i])(r)
    decreases |insts|
  {
    hide Stamp;
    var n := |insts| - 1;
    var front := AllRoutes(name, insts[..n], decl[..n]);
    if p < |front| {
      i, r := AllRoutesStamped(name, insts[..n], decl[..n], p);
    } else {
      i, r := n, decl[n][p - |front|];
    }
  }

  /** A returned route is one that some instance declared, under the name of the service and
      with the tag values of that instance; nothing else about it is changed. */
  lemma RouteIsDeclared(name: string, insts: seq<Instance>, decl: seq<seq<RouteDefinition>>, routes: seq<RouteDefinition>, k: nat)
    returns (i: nat, r: RouteDefinition)
    requires |insts| == |decl| && Matches(AllRoutes(name, insts, decl), routes) && k < |routes|
    ensures i < |insts| && r in decl[i]
    ensures routes[k] == r.(serviceName := name, tagValues := TagValues(insts[i].tags), upstreams := routes[k].upstreams)
  {
    hide AllRoutes, Matches, TagValues;
    var all := AllRoutes(name, insts, decl);
    var p := FirstDeclarationCounts(all, routes, k);
    i, r := AllRoutesStamped(name, insts, decl, p);
  }
}
